/**
 Folding the Claude subscription rows of the quota list into one card, in place of the first.
 */
module QuotaFold {
  import opened Sequences

  datatype Tone = Ok | Warn | Live | Local | Amber

  /** `rest` stands for the fields that folding only ever copies. */
  datatype Quota = Quota(id: string, tool: string, kind: string, accessMode: Option<string>, hostId: Option<string>,
                         percent: Option<int>, tone: Tone, exhausted: bool, rest: string)

  /** `value || fallback` for an optional string. */
  function Or(value: Option<string>, fallback: string): string {
    if value.Some? && value.value != "" then value.value else fallback
  }

  predicate IsClaude(row: Quota) {
    && Or(row.accessMode, row.kind) == "subscription"
    && var host, tool, id := Lower(Or(row.hostId, "")), Lower(row.tool), Lower(row.id);
       || host == "claude_desktop" || host == "claude_cli" || host == "claude"
       || Contains(id, "claude_desktop") || Contains(id, "claude_cli")
       || Contains(tool, "claude desktop") || Contains(tool, "claude cli") || tool == "claude"
  }

  predicate NotClaude(row: Quota) { !IsClaude(row) }

  function IdOf(row: Quota): string { row.id }

  /** What a lone Claude row becomes; plugins keep their name. */
  function Renamed(row: Quota): Quota {
    if !IsClaude(row) || Contains(Lower(row.tool), "plugin") then row
    else row.(tool := "Claude", hostId := Some(Or(row.hostId, "claude")))
  }

  function WorstTone(tone: Tone, rows: seq<Quota>): Tone
    decreases |rows|
  {
    if rows == [] then tone
    else if rows[0].tone == Amber || rows[0].exhausted then WorstTone(Amber, rows[1..])
    else if rows[0].tone == Warn && tone != Amber then WorstTone(Warn, rows[1..])
    else WorstTone(tone, rows[1..])
  }

  function MaxPercent(max: Option<int>, rows: seq<Quota>): Option<int>
    decreases |rows|
  {
    if rows == [] then max
    else if rows[0].percent.None? then MaxPercent(max, rows[1..])
    else if max.None? then MaxPercent(rows[0].percent, rows[1..])
    else MaxPercent(Some(Max(max.value, rows[0].percent.value)), rows[1..])
  }

  /** The one card that stands for two or more Claude rows. */
  function Merged(rows: seq<Quota>): Quota
    requires rows != []
  {
    rows[0].(id := if "app:claude" <= rows[0].id then "app:claude" else rows[0].id,
             tool := "Claude", hostId := Some("claude"),
             tone := WorstTone(rows[0].tone, rows),
             percent := MaxPercent(None, rows),
             exhausted := exists row :: row in rows && row.exhausted)
  }

  /** Whether some Claude row of the list has this id. */
  function ClaudeIds(quotas: seq<Quota>): set<string> {
    set row | row in quotas && IsClaude(row) :: row.id
  }

  function OutsideIds(ids: set<string>): Quota -> bool { (row: Quota) => row.id !in ids }

  /** Drop the rows with a merged id, except that the card takes the place of the first of them. */
  function Collapse(quotas: seq<Quota>, ids: set<string>, card: Quota, inserted: bool): seq<Quota>
    decreases |quotas|
  {
    if quotas == [] then []
    else if quotas[0].id !in ids then [quotas[0]] + Collapse(quotas[1..], ids, card, inserted)
    else if inserted then Collapse(quotas[1..], ids, card, true)
    else [card] + Collapse(quotas[1..], ids, card, true)
  }

  function Folded(quotas: seq<Quota>): seq<Quota> {
    var claude := Filter(IsClaude, quotas);
    if |claude| <= 1 then Map(Renamed, quotas)
    else Collapse(quotas, ClaudeIds(quotas), Merged(claude), false)
  }

  lemma CollapseStep(result: seq<Quota>, quotas: seq<Quota>, i: nat, ids: set<string>, card: Quota, inserted: bool)
    requires i < |quotas|
    ensures var merged := quotas[i].id in ids;
      var pushed := if !merged then [quotas[i]] else if inserted then [] else [card];
      result + Collapse(quotas[i..], ids, card, inserted)
      == result + pushed + Collapse(quotas[i + 1..], ids, card, inserted || merged)
  {
    assert quotas[i..][1..] == quotas[i + 1..];
  }

  method MergeClaudeQuotaRows(quotas: seq<Quota>) returns (result: seq<Quota>)
    ensures result == Folded(quotas)
  {
    var claudeRows := Filter(IsClaude, quotas);
    if |claudeRows| <= 1 {
      return Map(Renamed, quotas);
    }
    var mergedIds := ClaudeIds(quotas);
    var merged := Merged(claudeRows);
    var inserted := false;
    result := [];
    for i := 0 to |quotas|
      invariant result + Collapse(quotas[i..], mergedIds, merged, inserted)
             == Collapse(quotas, mergedIds, merged, false)
    {
      CollapseStep(result, quotas, i, mergedIds, merged, inserted);
      if quotas[i].id !in mergedIds {
        result := result + [quotas[i]];
      } else if !inserted {
        result := result + [merged];
        inserted := true;
      }
    }
  }

  // ----- the card -----------------------------------------------------------------------

  lemma {:induction false} WorstToneIsWorst(tone: Tone, rows: seq<Quota>)
    ensures WorstTone(tone, rows) ==
      if tone == Amber || (exists row :: row in rows && (row.tone == Amber || row.exhausted)) then Amber
      else if exists row :: row in rows && row.tone == Warn then Warn
      else tone
    decreases |rows|
  {
    if rows != [] {
      assert rows == [rows[0]] + rows[1..];
      var next :=
        if rows[0].tone == Amber || rows[0].exhausted then Amber
        else if rows[0].tone == Warn && tone != Amber then Warn
        else tone;
      WorstToneIsWorst(next, rows[1..]);
    }
  }

  lemma {:induction false} MaxPercentIsMax(max: Option<int>, rows: seq<Quota>)
    ensures MaxPercent(max, rows).None? <==> max.None? && forall row :: row in rows ==> row.percent.None?
    ensures MaxPercent(max, rows).Some? ==>
      MaxPercent(max, rows) == max || exists row :: row in rows && row.percent == MaxPercent(max, rows)
    ensures max.Some? ==> MaxPercent(max, rows).Some? && max.value <= MaxPercent(max, rows).value
    ensures forall row :: row in rows && row.percent.Some? ==>
      MaxPercent(max, rows).Some? && row.percent.value <= MaxPercent(max, rows).value
    decreases |rows|
  {
    if rows != [] {
      assert rows == [rows[0]] + rows[1..];
      var next :=
        if rows[0].percent.None? then max
        else if max.None? then rows[0].percent
        else Some(Max(max.value, rows[0].percent.value));
      MaxPercentIsMax(next, rows[1..]);
      assert MaxPercent(max, rows) == MaxPercent(next, rows[1..]);
      assert rows[0] in rows;
    }
  }

  /**
   When two or more rows fold, the card shows their highest percent (none if none has one), is
   exhausted if any of them is, and carries the worst tone.
   */
  lemma CardSummarises(quotas: seq<Quota>)
    requires |Filter(IsClaude, quotas)| >= 2
    ensures var rows := Filter(IsClaude, quotas);
      var card := Merged(rows);
      && card in Folded(quotas)
      && (card.percent.None? <==> forall row :: row in rows ==> row.percent.None?)
      && (card.percent.Some? ==> exists row :: row in rows && row.percent == card.percent)
      && (forall row :: row in rows && row.percent.Some? ==> row.percent.value <= card.percent.value)
      && (card.exhausted <==> exists row :: row in rows && row.exhausted)
      && (card.tone == Amber <==> exists row :: row in rows && (row.tone == Amber || row.exhausted))
      && (card.tone == Warn ==> exists row :: row in rows && row.tone == Warn)
      && (card.tone == Warn <== card.tone != Amber && exists row :: row in rows && row.tone == Warn)
  {
    var rows := Filter(IsClaude, quotas);
    ClaudeIdsExist(quotas);
    FilterCollapse(IsClaude, quotas, ClaudeIds(quotas), Merged(rows));
    WorstToneIsWorst(rows[0].tone, rows);
    MaxPercentIsMax(None, rows);
    assert rows[0] in rows;
  }

  // ----- names and kinds ----------------------------------------------------------------

  lemma ClaudeName()
    ensures Lower("Claude") == "claude" && Lower("claude") == "claude"
    ensures !Contains("claude", "plugin")
  {
    ContainsNoLonger("claude", "plugin");
    assert "claude"[0] != "plugin"[0];
  }

  lemma RenamedKeepsKind(row: Quota)
    ensures IsClaude(Renamed(row)) <==> IsClaude(row)
    ensures Renamed(Renamed(row)) == Renamed(row)
  {
    ClaudeName();
  }

  lemma MergedIsClaude(quotas: seq<Quota>)
    requires Filter(IsClaude, quotas) != []
    ensures IsClaude(Merged(Filter(IsClaude, quotas)))
    ensures Renamed(Merged(Filter(IsClaude, quotas))) == Merged(Filter(IsClaude, quotas))
  {
    var rows := Filter(IsClaude, quotas);
    FilterElement(IsClaude, quotas, rows[0]);
    ClaudeName();
  }

  lemma {:induction false} FilterRenamed(quotas: seq<Quota>)
    ensures Filter(IsClaude, Map(Renamed, quotas)) == Map(Renamed, Filter(IsClaude, quotas))
    ensures Filter(NotClaude, Map(Renamed, quotas)) == Filter(NotClaude, quotas)
  {
    if quotas != [] {
      FilterRenamed(quotas[1..]);
      RenamedKeepsKind(quotas[0]);
      assert Map(Renamed, quotas) == [Renamed(quotas[0])] + Map(Renamed, quotas[1..]);
      assert Map(Renamed, quotas)[1..] == Map(Renamed, quotas[1..]);
      if IsClaude(quotas[0]) {
        assert ([quotas[0]] + Filter(IsClaude, quotas[1..]))[1..] == Filter(IsClaude, quotas[1..]);
      }
    }
  }

  // ----- collapsing, for any set of ids and any card ------------------------------------

  lemma {:induction false} CollapseInserted(quotas: seq<Quota>, ids: set<string>, card: Quota)
    ensures Collapse(quotas, ids, card, true) == Filter(OutsideIds(ids), quotas)
  {
    if quotas != [] {
      CollapseInserted(quotas[1..], ids, card);
    }
  }

  /** Rows before the first merged one are passed through. */
  lemma {:induction false} CollapsePassesThrough(before: seq<Quota>, rest: seq<Quota>, ids: set<string>, card: Quota)
    requires forall k :: 0 <= k < |before| ==> before[k].id !in ids
    ensures Collapse(before + rest, ids, card, false) == before + Collapse(rest, ids, card, false)
    decreases |before|
  {
    if before == [] {
      assert before + rest == rest;
    } else {
      CollapsePassesThrough(before[1..], rest, ids, card);
      assert (before + rest)[0] == before[0] && (before + rest)[1..] == before[1..] + rest;
      assert before + Collapse(rest, ids, card, false)
          == [before[0]] + (before[1..] + Collapse(rest, ids, card, false));
    }
  }

  lemma CollapseAtCard(rest: seq<Quota>, ids: set<string>, card: Quota)
    requires rest != [] && rest[0].id in ids
    ensures Collapse(rest, ids, card, false) == [card] + Filter(OutsideIds(ids), rest[1..])
    ensures Filter(OutsideIds(ids), rest) == Filter(OutsideIds(ids), rest[1..])
  {
    CollapseInserted(rest[1..], ids, card);
  }

  /** The first merged row splits the result: what is kept before it, the card, what is kept after it. */
  lemma CollapseSplits(quotas: seq<Quota>, ids: set<string>, card: Quota, first: nat)
    requires first < |quotas| && quotas[first].id in ids
    requires forall k :: 0 <= k < first ==> quotas[k].id !in ids
    ensures Collapse(quotas, ids, card, false)
         == quotas[..first] + [card] + Filter(OutsideIds(ids), quotas[first + 1..])
    ensures Filter(OutsideIds(ids), quotas) == quotas[..first] + Filter(OutsideIds(ids), quotas[first + 1..])
  {
    hide Collapse, Filter;
    var before, rest := quotas[..first], quotas[first..];
    assert quotas == before + rest && rest[0] == quotas[first] && rest[1..] == quotas[first + 1..];
    CollapsePassesThrough(before, rest, ids, card);
    CollapseAtCard(rest, ids, card);
    FilterAppend(OutsideIds(ids), before, rest);
    FilterAll(OutsideIds(ids), before);
    assert before + ([card] + Filter(OutsideIds(ids), rest[1..]))
        == before + [card] + Filter(OutsideIds(ids), rest[1..]);
  }

  lemma {:induction false} FirstIn(quotas: seq<Quota>, ids: set<string>) returns (first: nat)
    requires exists row :: row in quotas && row.id in ids
    ensures first < |quotas| && quotas[first].id in ids
    ensures forall k :: 0 <= k < first ==> quotas[k].id !in ids
  {
    if quotas[0].id in ids {
      first := 0;
    } else {
      assert quotas == [quotas[0]] + quotas[1..];
      var rest := FirstIn(quotas[1..], ids);
      first := rest + 1;
    }
  }

  lemma FilterSingleton<T>(p: T -> bool, x: T)
    ensures Filter(p, [x]) == if p(x) then [x] else []
  {
    assert [x][1..] == [];
  }

  /** A filter sees the card and the kept rows. */
  lemma FilterCollapse(p: Quota -> bool, quotas: seq<Quota>, ids: set<string>, card: Quota)
    requires exists row :: row in quotas && row.id in ids
    ensures !p(card) ==> Filter(p, Collapse(quotas, ids, card, false)) == Filter(p, Filter(OutsideIds(ids), quotas))
    ensures p(card) ==>
      |Filter(p, Collapse(quotas, ids, card, false))| == 1 + |Filter(p, Filter(OutsideIds(ids), quotas))|
    ensures card in Collapse(quotas, ids, card, false)
    ensures forall row :: row in Collapse(quotas, ids, card, false) ==>
      row == card || row in Filter(OutsideIds(ids), quotas)
  {
    var first := FirstIn(quotas, ids);
    CollapseSplits(quotas, ids, card, first);
    var before, after := quotas[..first], Filter(OutsideIds(ids), quotas[first + 1..]);
    FilterAppend(p, before + [card], after);
    FilterAppend(p, before, [card]);
    FilterAppend(p, before, after);
    FilterSingleton(p, card);
  }

  // ----- at most one, others untouched, idempotent --------------------------------------

  lemma ClaudeIdsExist(quotas: seq<Quota>)
    requires Filter(IsClaude, quotas) != []
    ensures exists row :: row in quotas && row.id in ClaudeIds(quotas)
  {
    var row := Filter(IsClaude, quotas)[0];
    FilterElement(IsClaude, quotas, row);
    assert row.id in ClaudeIds(quotas);
  }

  lemma KeptAreNotClaude(quotas: seq<Quota>)
    ensures forall row :: row in Filter(OutsideIds(ClaudeIds(quotas)), quotas) ==> !IsClaude(row) && row in quotas
  {
    forall row | row in Filter(OutsideIds(ClaudeIds(quotas)), quotas)
      ensures !IsClaude(row) && row in quotas
    {
      FilterElement(OutsideIds(ClaudeIds(quotas)), quotas, row);
    }
  }

  /** Whatever the list, at most one Claude subscription row is left. */
  lemma AtMostOneClaudeRow(quotas: seq<Quota>)
    ensures |Filter(IsClaude, Folded(quotas))| == Min(1, |Filter(IsClaude, quotas)|)
  {
    if |Filter(IsClaude, quotas)| <= 1 {
      FilterRenamed(quotas);
    } else {
      var ids, card := ClaudeIds(quotas), Merged(Filter(IsClaude, quotas));
      ClaudeIdsExist(quotas);
      MergedIsClaude(quotas);
      KeptAreNotClaude(quotas);
      FilterCollapse(IsClaude, quotas, ids, card);
      FilterNone(IsClaude, Filter(OutsideIds(ids), quotas));
    }
  }

  lemma FoldedRowsAreSettled(quotas: seq<Quota>, row: Quota)
    requires row in Folded(quotas)
    ensures Renamed(row) == row
  {
    if |Filter(IsClaude, quotas)| <= 1 {
      var k :| 0 <= k < |quotas| && Map(Renamed, quotas)[k] == row;
      RenamedKeepsKind(quotas[k]);
    } else {
      ClaudeIdsExist(quotas);
      MergedIsClaude(quotas);
      KeptAreNotClaude(quotas);
      FilterCollapse(IsClaude, quotas, ClaudeIds(quotas), Merged(Filter(IsClaude, quotas)));
    }
  }

  /** Folding what is already folded changes nothing, whatever the list. */
  lemma FoldIsIdempotent(quotas: seq<Quota>)
    ensures Folded(Folded(quotas)) == Folded(quotas)
  {
    var folded := Folded(quotas);
    AtMostOneClaudeRow(quotas);
    forall k | 0 <= k < |folded|
      ensures Renamed(folded[k]) == folded[k]
    {
      FoldedRowsAreSettled(quotas, folded[k]);
    }
    assert Map(Renamed, folded) == folded;
  }

  /** Some row that is not Claude's has the id of one that is. */
  ghost predicate SharesClaudeId(quotas: seq<Quota>) {
    exists row :: row in quotas && NotClaude(row) && row.id in ClaudeIds(quotas)
  }

  lemma KeptOrLost(quotas: seq<Quota>)
    ensures Filter(OutsideIds(ClaudeIds(quotas)), quotas) == Filter(NotClaude, quotas) <==> !SharesClaudeId(quotas)
  {
    var ids := ClaudeIds(quotas);
    if SharesClaudeId(quotas) {
      var row :| row in quotas && NotClaude(row) && row.id in ids;
      FilterIn(NotClaude, quotas);
      FilterIn(OutsideIds(ids), quotas);
      assert row in Filter(NotClaude, quotas) && row !in Filter(OutsideIds(ids), quotas);
    } else {
      FilterCongruent(NotClaude, OutsideIds(ids), quotas);
    }
  }

  /**
   All other rows survive unchanged and in order exactly when nothing is folded together or no
   other row shares an id with a Claude row; unique ids are enough.
   */
  lemma OthersUntouched(quotas: seq<Quota>)
    ensures Filter(NotClaude, Folded(quotas)) == Filter(NotClaude, quotas)
      <==> (|Filter(IsClaude, quotas)| <= 1 || !SharesClaudeId(quotas))
  {
    if |Filter(IsClaude, quotas)| <= 1 {
      FilterRenamed(quotas);
    } else {
      var ids := ClaudeIds(quotas);
      ClaudeIdsExist(quotas);
      MergedIsClaude(quotas);
      KeptAreNotClaude(quotas);
      FilterCollapse(NotClaude, quotas, ids, Merged(Filter(IsClaude, quotas)));
      FilterAll(NotClaude, Filter(OutsideIds(ids), quotas));
      KeptOrLost(quotas);
    }
  }

  lemma TwoOfThree(a: Quota, b: Quota, x: Quota)
    requires IsClaude(a) && IsClaude(b) && !IsClaude(x)
    ensures |Filter(IsClaude, [a, b, x])| == 2
  {
    hide IsClaude;
    assert [a, b, x][1..] == [b, x] && [b, x][1..] == [x];
    assert Filter(IsClaude, [x]) == [];
  }

  /** For instance a local row with the id of one of two Claude rows: it is gone from the list. */
  lemma SharedIdIsDropped(x: Quota, other: string)
    requires x.accessMode == None && x.kind == "local"
    ensures var c := x.(kind := "subscription", hostId := Some("claude"));
      x !in Folded([c, c.(id := other), x])
  {
    hide Merged, Collapse;
    var c := x.(kind := "subscription", hostId := Some("claude"));
    var quotas := [c, c.(id := other), x];
    ClaudeName();
    assert IsClaude(c) && IsClaude(c.(id := other)) && !IsClaude(x);
    TwoOfThree(c, c.(id := other), x);
    assert c in quotas;
    ClaudeIdsExist(quotas);
    FilterCollapse(IsClaude, quotas, ClaudeIds(quotas), Merged(Filter(IsClaude, quotas)));
    FilterIn(OutsideIds(ClaudeIds(quotas)), quotas);
    MergedIsClaude(quotas);
  }

  lemma UniqueIdsShareNothing(quotas: seq<Quota>)
    requires Distinct(Map(IdOf, quotas))
    ensures !SharesClaudeId(quotas)
  {
    forall row | row in quotas && NotClaude(row)
      ensures row.id !in ClaudeIds(quotas)
    {
      var i :| 0 <= i < |quotas| && quotas[i] == row;
      forall other | other in quotas && IsClaude(other)
        ensures other.id != row.id
      {
        var j :| 0 <= j < |quotas| && quotas[j] == other;
        assert i != j;
        assert Map(IdOf, quotas)[i] != Map(IdOf, quotas)[j];
      }
    }
  }

  /** With unique ids the card stands exactly where the first Claude row stood. */
  lemma CardTakesFirstPlace(quotas: seq<Quota>, first: nat)
    requires Distinct(Map(IdOf, quotas)) && |Filter(IsClaude, quotas)| >= 2
    requires first < |quotas| && IsClaude(quotas[first])
    requires forall k :: 0 <= k < first ==> NotClaude(quotas[k])
    ensures Folded(quotas)
         == quotas[..first] + [Merged(Filter(IsClaude, quotas))] + Filter(NotClaude, quotas[first + 1..])
  {
    var ids := ClaudeIds(quotas);
    UniqueIdsShareNothing(quotas);
    assert quotas[first].id in ids by {
      assert quotas[first] in quotas;
    }
    forall k | 0 <= k < first
      ensures quotas[k].id !in ids
    {
      assert quotas[k] in quotas;
    }
    CollapseSplits(quotas, ids, Merged(Filter(IsClaude, quotas)), first);
    assert forall row :: row in quotas[first + 1..] ==> row in quotas;
    FilterCongruent(NotClaude, OutsideIds(ids), quotas[first + 1..]);
  }

  // ----- which rows fold, and into what -------------------------------------------------

  /** The text, in small letters, has the part in it. */
  ghost predicate Mentions(text: string, part: string) { exists i: nat :: PartAt(Lower(text), part, i) }

  /** A subscription row of one of Claude's hosts, or named after one of its tools. */
  ghost predicate BelongsToClaude(row: Quota) {
    && (if row.accessMode.Some? && row.accessMode.value != "" then row.accessMode.value == "subscription"
        else row.kind == "subscription")
    && ((row.hostId.Some? && Lower(row.hostId.value) in {"claude_desktop", "claude_cli", "claude"})
        || Mentions(row.id, "claude_desktop") || Mentions(row.id, "claude_cli")
        || Mentions(row.tool, "claude desktop") || Mentions(row.tool, "claude cli") || Lower(row.tool) == "claude")
  }

  lemma ClaudeRows(row: Quota)
    ensures IsClaude(row) <==> BelongsToClaude(row)
  {
    hide Contains, Lower;
    ContainsIs(Lower(row.id), "claude_desktop");
    ContainsIs(Lower(row.id), "claude_cli");
    ContainsIs(Lower(row.tool), "claude desktop");
    ContainsIs(Lower(row.tool), "claude cli");
    NothingInSmall();
  }

  lemma NothingInSmall()
    ensures Lower("") == ""
  {
  }

  /** A row that stays alone: another tool's is left as it is, Claude's own gets its name and host, but for a plugin. */
  lemma LoneRow(row: Quota)
    ensures !BelongsToClaude(row) ==> Folded([row]) == [row]
    ensures BelongsToClaude(row) && Mentions(row.tool, "plugin") ==> Folded([row]) == [row]
    ensures BelongsToClaude(row) && !Mentions(row.tool, "plugin") ==>
      var host := if row.hostId.Some? && row.hostId.value != "" then row.hostId.value else "claude";
      Folded([row]) == [row.(tool := "Claude", hostId := Some(host))]
  {
    hide Contains, Lower, BelongsToClaude, IsClaude;
    ClaudeRows(row);
    ContainsIs(Lower(row.tool), "plugin");
    FilterLength(IsClaude, [row]);
    assert Map(Renamed, [row]) == [Renamed(row)];
  }

  /** Two of Claude's rows become one card, with the first one's other fields. */
  lemma PairBecomesCard(a: Quota, b: Quota)
    requires BelongsToClaude(a) && BelongsToClaude(b)
    ensures Folded([a, b]) ==
      [a.(id := if "app:claude" <= a.id then "app:claude" else a.id, tool := "Claude", hostId := Some("claude"),
          tone := if a.tone == Amber || b.tone == Amber || a.exhausted || b.exhausted then Amber
                  else if a.tone == Warn || b.tone == Warn then Warn else a.tone,
          percent := if a.percent.None? then b.percent
                     else if b.percent.None? then a.percent
                     else Some(if a.percent.value >= b.percent.value then a.percent.value else b.percent.value),
          exhausted := a.exhausted || b.exhausted)]
  {
    hide BelongsToClaude, IsClaude;
    ClaudeRows(a);
    ClaudeRows(b);
    assert [a, b][1..] == [b] && [b][1..] == [];
    assert Filter(IsClaude, [b]) == [b];
    assert Filter(IsClaude, [a, b]) == [a, b];
    assert a.id in ClaudeIds([a, b]) && b.id in ClaudeIds([a, b]) by {
      assert a in [a, b] && b in [a, b];
    }
    var card := Merged([a, b]);
    CardOfTwo(a, b);
    assert Collapse([b], ClaudeIds([a, b]), card, true) == [];
    assert Collapse([a, b], ClaudeIds([a, b]), card, false) == [card];
  }

  function ToneAfter(tone: Tone, row: Quota): Tone {
    if row.tone == Amber || row.exhausted then Amber else if row.tone == Warn && tone != Amber then Warn else tone
  }

  lemma CardOfTwo(a: Quota, b: Quota)
    ensures var card := Merged([a, b]);
      && card.tone == (if a.tone == Amber || b.tone == Amber || a.exhausted || b.exhausted then Amber
                       else if a.tone == Warn || b.tone == Warn then Warn else a.tone)
      && card.percent == (if a.percent.None? then b.percent
                          else if b.percent.None? then a.percent
                          else Some(if a.percent.value >= b.percent.value then a.percent.value else b.percent.value))
      && card.exhausted == (a.exhausted || b.exhausted)
  {
    assert [a, b][1..] == [b] && [b][1..] == [];
    assert a in [a, b] && b in [a, b];
    var t1 := ToneAfter(a.tone, a);
    assert WorstTone(a.tone, [a, b]) == WorstTone(t1, [b]);
    assert WorstTone(t1, [b]) == WorstTone(ToneAfter(t1, b), []) == ToneAfter(t1, b);
    assert MaxPercent(None, [a, b]) == MaxPercent(a.percent, [b]);
    assert b.percent.None? ==> MaxPercent(a.percent, [b]) == MaxPercent(a.percent, []) == a.percent;
    assert b.percent.Some? && a.percent.Some? ==>
      MaxPercent(a.percent, [b]) == MaxPercent(Some(Max(a.percent.value, b.percent.value)), []);
    assert b.percent.Some? && a.percent.None? ==> MaxPercent(a.percent, [b]) == MaxPercent(b.percent, []) == b.percent;
  }
}
