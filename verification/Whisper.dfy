/**
 Merging the experiences that a context whisper carries into the list on screen: union by id
 through an insertion-ordered map, then whispered rows first and newest first.
 */
module WhisperMerge {
  import opened Sequences
  import opened StableSort
  import opened Experiences

  datatype Whisper = Whisper(experienceIds: seq<string>, experiences: seq<Experience>)

  predicate HasId(rows: seq<Experience>, id: string) {
    exists row :: row in rows && row.id == id
  }

  // ----- the insertion-ordered map, by its list of values -------------------------------

  /** `map.set(row.id, row)` as seen by `Array.from(map.values())`: overwrite in place or append. */
  function SetRow(values: seq<Experience>, row: Experience): seq<Experience> {
    if values == [] then [row]
    else if values[0].id == row.id then [row] + values[1..]
    else [values[0]] + SetRow(values[1..], row)
  }

  /** `new Map(rows.map((row) => [row.id, row]))` */
  function ById(rows: seq<Experience>): seq<Experience> {
    if rows == [] then [] else SetRow(ById(rows[..|rows| - 1]), rows[|rows| - 1])
  }

  /** Set each row whose id the map does not have yet. */
  function AddMissing(values: seq<Experience>, rows: seq<Experience>): seq<Experience>
    decreases |rows|
  {
    if rows == [] then values
    else AddMissing(if HasId(values, rows[0].id) then values else values + [rows[0]], rows[1..])
  }

  function IsWhispered(whisper: Whisper): Experience -> bool {
    (row: Experience) => row.id in whisper.experienceIds
  }

  function Merged(current: seq<Experience>, whisper: Whisper): seq<Experience> {
    if whisper.experiences == [] then current
    else Sort(Grouped(IsWhispered(whisper), Newest), AddMissing(ById(current), whisper.experiences))
  }

  // ----- the loop -----------------------------------------------------------------------

  ghost predicate MapValues(keys: seq<string>, byId: map<string, Experience>, values: seq<Experience>) {
    && Ids(values) == keys && Distinct(keys)
    && (forall id :: id in byId <==> id in keys)
    && forall k :: 0 <= k < |keys| ==> byId[keys[k]] == values[k]
  }

  lemma {:induction false} SetRowAppends(values: seq<Experience>, row: Experience)
    requires !HasId(values, row.id)
    ensures SetRow(values, row) == values + [row]
  {
    if values != [] {
      assert values == [values[0]] + values[1..];
      assert forall x :: x in values[1..] ==> x in values;
      SetRowAppends(values[1..], row);
    }
  }

  lemma {:induction false} SetRowOverwrites(values: seq<Experience>, row: Experience, k: nat)
    requires k < |values| && values[k].id == row.id
    requires forall j :: 0 <= j < k ==> values[j].id != row.id
    ensures SetRow(values, row) == values[k := row]
  {
    if k > 0 {
      SetRowOverwrites(values[1..], row, k - 1);
      assert values[k := row] == [values[0]] + values[1..][k - 1 := row];
    } else {
      assert values[0 := row] == [row] + values[1..];
    }
  }

  /** The position at which a list with unique ids holds an id. */
  lemma Position(values: seq<Experience>, id: string) returns (k: nat)
    requires HasId(values, id) && Distinct(Ids(values))
    ensures k < |values| && values[k].id == id
    ensures forall j :: 0 <= j < |values| && j != k ==> values[j].id != id
  {
    var x :| x in values && x.id == id;
    k :| 0 <= k < |values| && values[k] == x;
    forall j | 0 <= j < |values| && j != k
      ensures values[j].id != id
    {
      assert Ids(values)[j] != Ids(values)[k];
    }
  }

  lemma MapSet(keys: seq<string>, byId: map<string, Experience>, values: seq<Experience>, row: Experience)
    requires MapValues(keys, byId, values)
    ensures MapValues(if row.id in byId then keys else keys + [row.id], byId[row.id := row], SetRow(values, row))
    ensures HasId(values, row.id) <==> row.id in byId
  {
    hide MapValues, HasId, SetRow;
    MapHasId(keys, byId, values, row.id);
    if row.id in byId {
      MapOverwrite(keys, byId, values, row);
    } else {
      SetRowAppends(values, row);
      MapAppend(keys, byId, values, row);
    }
  }

  lemma MapOverwrite(keys: seq<string>, byId: map<string, Experience>, values: seq<Experience>, row: Experience)
    requires MapValues(keys, byId, values) && HasId(values, row.id)
    ensures MapValues(keys, byId[row.id := row], SetRow(values, row))
  {
    hide HasId, SetRow;
    var k := Position(values, row.id);
    SetRowOverwrites(values, row, k);
    assert Ids(values[k := row]) == keys;
    assert keys[k] == row.id;
  }

  lemma MapHasId(keys: seq<string>, byId: map<string, Experience>, values: seq<Experience>, id: string)
    requires MapValues(keys, byId, values)
    ensures HasId(values, id) <==> id in byId
  {
    assert forall k :: 0 <= k < |values| ==> values[k] in values && keys[k] == values[k].id;
  }

  lemma MapAppend(keys: seq<string>, byId: map<string, Experience>, values: seq<Experience>, row: Experience)
    requires MapValues(keys, byId, values) && row.id !in byId
    ensures MapValues(keys + [row.id], byId[row.id := row], values + [row])
  {
    assert Ids(values + [row]) == keys + [row.id];
    var keys1 := keys + [row.id];
    forall k | 0 <= k < |keys|
      ensures keys1[k] != row.id
    {
      assert keys[k] in keys;
    }
  }

  method IndexById(current: seq<Experience>) returns (keys: seq<string>, byId: map<string, Experience>)
    ensures MapValues(keys, byId, ById(current))
  {
    keys, byId := [], map[];
    for i := 0 to |current|
      invariant MapValues(keys, byId, ById(current[..i]))
    {
      var row := current[i];
      assert current[..i + 1][..i] == current[..i];
      MapSet(keys, byId, ById(current[..i]), row);
      keys, byId := if row.id in byId then keys else keys + [row.id], byId[row.id := row];
    }
    assert current[..|current|] == current;
  }

  method SetMissing(keys: seq<string>, byId: map<string, Experience>, rows: seq<Experience>,
                    ghost values: seq<Experience>)
    returns (keys1: seq<string>, byId1: map<string, Experience>)
    requires MapValues(keys, byId, values)
    ensures MapValues(keys1, byId1, AddMissing(values, rows))
  {
    keys1, byId1 := keys, byId;
    ghost var values1 := values;
    for i := 0 to |rows|
      invariant MapValues(keys1, byId1, values1)
      invariant AddMissing(values1, rows[i..]) == AddMissing(values, rows)
    {
      var row := rows[i];
      assert rows[i..][1..] == rows[i + 1..];
      MapHasId(keys1, byId1, values1, row.id);
      if row.id !in byId1 {
        MapAppend(keys1, byId1, values1, row);
        keys1, byId1 := keys1 + [row.id], byId1[row.id := row];
        values1 := values1 + [row];
      }
    }
    assert rows[|rows|..] == [];
  }

  method MapToList(keys: seq<string>, byId: map<string, Experience>, ghost values: seq<Experience>)
    returns (list: seq<Experience>)
    requires MapValues(keys, byId, values)
    ensures list == values
  {
    list := [];
    for i := 0 to |keys|
      invariant list == values[..i]
    {
      list := list + [byId[keys[i]]];
    }
  }

  method MergeWhisperedExperiences(current: seq<Experience>, whisper: Whisper) returns (merged: seq<Experience>)
    ensures merged == Merged(current, whisper)
  {
    if whisper.experiences == [] {
      return current;
    }
    var keys, byId := IndexById(current);
    keys, byId := SetMissing(keys, byId, whisper.experiences, ById(current));
    merged := MapToList(keys, byId, AddMissing(ById(current), whisper.experiences));
    merged := Sort(Grouped(IsWhispered(whisper), Newest), merged);
  }

  // ----- what merging guarantees --------------------------------------------------------

  lemma {:induction false} ByIdOfDistinct(rows: seq<Experience>)
    requires Distinct(Ids(rows))
    ensures ById(rows) == rows
  {
    if rows != [] {
      var init, last := rows[..|rows| - 1], rows[|rows| - 1];
      assert rows == init + [last];
      DistinctLast(IdOf, init, last);
      ByIdOfDistinct(init);
      SetRowAppends(init, last);
    }
  }

  lemma {:induction false} ByIdIsDistinct(rows: seq<Experience>)
    ensures Distinct(Ids(ById(rows)))
  {
    if rows != [] {
      var values, row := ById(rows[..|rows| - 1]), rows[|rows| - 1];
      ByIdIsDistinct(rows[..|rows| - 1]);
      if HasId(values, row.id) {
        var k := Position(values, row.id);
        SetRowOverwrites(values, row, k);
        assert Ids(values[k := row]) == Ids(values);
      } else {
        SetRowAppends(values, row);
        DistinctSnoc(IdOf, values, row);
      }
    }
  }

  /** The values after one conditional set. */
  function WithMissing(values: seq<Experience>, row: Experience): seq<Experience> {
    if HasId(values, row.id) then values else values + [row]
  }

  lemma WithMissingAppends(values: seq<Experience>, row: Experience)
    requires Distinct(Ids(values))
    ensures Distinct(Ids(WithMissing(values, row)))
    ensures values <= WithMissing(values, row) && HasId(WithMissing(values, row), row.id)
    ensures forall x :: x in WithMissing(values, row) ==> x in values || (x == row && !HasId(values, x.id))
  {
    if !HasId(values, row.id) {
      DistinctSnoc(IdOf, values, row);
      assert row in values + [row];
    }
  }

  lemma HasIdMonotone(values: seq<Experience>, more: seq<Experience>, id: string)
    requires values <= more
    ensures HasId(values, id) ==> HasId(more, id)
  {
    if HasId(values, id) {
      var x :| x in values && x.id == id;
      var i :| 0 <= i < |values| && values[i] == x;
      assert more[i] == x;
    }
  }

  /** Adding what is missing keeps the old rows in front, unchanged, and each id once. */
  lemma {:induction false} AddMissingAppends(values: seq<Experience>, rows: seq<Experience>)
    requires Distinct(Ids(values))
    ensures Distinct(Ids(AddMissing(values, rows)))
    ensures values <= AddMissing(values, rows)
    decreases |rows|
  {
    if rows != [] {
      WithMissingAppends(values, rows[0]);
      AddMissingAppends(WithMissing(values, rows[0]), rows[1..]);
    }
  }

  /** What is added comes from the new rows and has an id that was missing. */
  lemma {:induction false} AddMissingSource(values: seq<Experience>, rows: seq<Experience>, x: Experience)
    requires Distinct(Ids(values)) && x in AddMissing(values, rows)
    ensures x in values || (x in rows && !HasId(values, x.id))
    decreases |rows|
  {
    if rows != [] {
      var next := WithMissing(values, rows[0]);
      WithMissingAppends(values, rows[0]);
      AddMissingSource(next, rows[1..], x);
      assert rows == [rows[0]] + rows[1..];
      HasIdMonotone(values, next, x.id);
    }
  }

  /** Every id of the new rows is there afterwards. */
  lemma {:induction false} AddMissingCovers(values: seq<Experience>, rows: seq<Experience>, x: Experience)
    requires Distinct(Ids(values)) && x in rows
    ensures HasId(AddMissing(values, rows), x.id)
    decreases |rows|
  {
    var next := WithMissing(values, rows[0]);
    WithMissingAppends(values, rows[0]);
    if x == rows[0] {
      AddMissingAppends(next, rows[1..]);
      HasIdMonotone(next, AddMissing(values, rows), x.id);
    } else {
      assert x in rows[1..];
      AddMissingCovers(next, rows[1..], x);
    }
  }

  lemma {:induction false} AddMissingNothing(values: seq<Experience>, rows: seq<Experience>)
    requires forall x :: x in rows ==> HasId(values, x.id)
    ensures AddMissing(values, rows) == values
    decreases |rows|
  {
    if rows != [] {
      AddMissingNothing(values, rows[1..]);
    }
  }

  /**
   Merging into rows with unique ids keeps every row as it was, yields each id of the list and
   of the whisper exactly once, and never replaces a row the list already had.
   */
  lemma MergeIsUnionById(current: seq<Experience>, whisper: Whisper)
    requires Distinct(Ids(current))
    ensures Distinct(Ids(Merged(current, whisper)))
    ensures forall x :: x in current ==> x in Merged(current, whisper)
    ensures forall x :: x in Merged(current, whisper) ==>
      x in current || (x in whisper.experiences && !HasId(current, x.id))
    ensures forall x :: x in whisper.experiences ==> HasId(Merged(current, whisper), x.id)
  {
    if whisper.experiences != [] {
      var all := AddMissing(current, whisper.experiences);
      ByIdOfDistinct(current);
      AddMissingAppends(current, whisper.experiences);
      SortContents(Grouped(IsWhispered(whisper), Newest), all);
      SortIn(Grouped(IsWhispered(whisper), Newest), all);
      DistinctContents(IdOf, all, Merged(current, whisper));
      forall x | x in all
        ensures x in current || (x in whisper.experiences && !HasId(current, x.id))
      {
        AddMissingSource(current, whisper.experiences, x);
      }
      forall x | x in whisper.experiences
        ensures HasId(Merged(current, whisper), x.id)
      {
        AddMissingCovers(current, whisper.experiences, x);
      }
    }
  }

  /** A merge that carries a row shows whispered rows first; both groups are stably newest-first. */
  lemma MergePutsWhisperedFirst(current: seq<Experience>, whisper: Whisper)
    requires whisper.experiences != []
    ensures var all := AddMissing(ById(current), whisper.experiences);
      Merged(current, whisper) == Sort(Newest, Filter(IsWhispered(whisper), all))
                                + Sort(Newest, Filter(Not(IsWhispered(whisper)), all))
    ensures Sorted(Grouped(IsWhispered(whisper), Newest), Merged(current, whisper))
  {
    var all := AddMissing(ById(current), whisper.experiences);
    GroupedSort(IsWhispered(whisper), Newest, all);
    GroupedIsPreorder(IsWhispered(whisper), Newest);
    SortSorted(Grouped(IsWhispered(whisper), Newest), all);
  }

  /** Of two rows in a merge the earlier one is whispered and the other not, or else is at least as new. */
  lemma MergeOrder(current: seq<Experience>, whisper: Whisper, i: nat, j: nat)
    requires whisper.experiences != [] && i < j < |Merged(current, whisper)|
    ensures var a, b := Merged(current, whisper)[i], Merged(current, whisper)[j];
      if a.id in whisper.experienceIds then b.id !in whisper.experienceIds || a.createdAt >= b.createdAt
      else b.id !in whisper.experienceIds && a.createdAt >= b.createdAt
  {
    hide Merged;
    MergePutsWhisperedFirst(current, whisper);
    var a, b := Merged(current, whisper)[i], Merged(current, whisper)[j];
    GroupedIs(IsWhispered(whisper), Newest, a, b);
    assert Newest(a, b) <==> a.createdAt >= b.createdAt;
  }

  /** Receiving the same whisper again changes nothing, whatever list it is merged into. */
  lemma MergeIsIdempotent(current: seq<Experience>, whisper: Whisper)
    ensures Merged(Merged(current, whisper), whisper) == Merged(current, whisper)
  {
    if whisper.experiences != [] {
      var all := AddMissing(ById(current), whisper.experiences);
      var merged := Merged(current, whisper);
      ByIdIsDistinct(current);
      AddMissingAppends(ById(current), whisper.experiences);
      SortContents(Grouped(IsWhispered(whisper), Newest), all);
      SortIn(Grouped(IsWhispered(whisper), Newest), all);
      DistinctContents(IdOf, all, merged);
      ByIdOfDistinct(merged);
      forall x | x in whisper.experiences
        ensures HasId(merged, x.id)
      {
        AddMissingCovers(ById(current), whisper.experiences, x);
        var y :| y in all && y.id == x.id;
        assert y in merged;
      }
      AddMissingNothing(merged, whisper.experiences);
      MergePutsWhisperedFirst(current, whisper);
      SortOfSorted(Grouped(IsWhispered(whisper), Newest), merged);
    }
  }
}
