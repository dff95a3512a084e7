/** `parse_and_merge_team_category`: the "for" and "against" tables of one
    category are normalised, inner-joined on `team_id`, labels present on
    both sides get the suffixes "_for" and "_against", and every merged row
    is stamped with the season label. */
module Merge {
  import opened Wrappers
  import opened Failures
  import opened Html
  import opened Season
  import opened Frames
  import opened Normalize

  const SeasonColumn := "season"
  const ForSuffix := "_for"
  const AgainstSuffix := "_against"

  function ForTableId(category: string): string
  {
    "stats_squads_" + category + "_for"
  }

  function AgainstTableId(category: string): string
  {
    "stats_squads_" + category + "_against"
  }

  /** Different categories read different tables. */
  lemma TableIdsInjective(c1: string, c2: string)
    ensures ForTableId(c1) == ForTableId(c2) ==> c1 == c2
    ensures AgainstTableId(c1) == AgainstTableId(c2) ==> c1 == c2
  {
    var p := |"stats_squads_"|;
    assert ForTableId(c1)[p..|ForTableId(c1)| - 4] == c1;
    assert ForTableId(c2)[p..|ForTableId(c2)| - 4] == c2;
    assert AgainstTableId(c1)[p..|AgainstTableId(c1)| - 8] == c1;
    assert AgainstTableId(c2)[p..|AgainstTableId(c2)| - 8] == c2;
  }

  /** The two tables of a category have different ids. */
  lemma ForAgainstDistinct(category: string)
    ensures ForTableId(category) != AgainstTableId(category)
  {
    assert |ForTableId(category)| + 4 == |AgainstTableId(category)|;
  }

  /** The merged label of a "for" column: suffixed when the "against" side has
      the same label and it is not the join key. */
  function ForName(c: string, againstColumns: seq<string>): string
  {
    if c != TeamIdColumn && c in againstColumns then c + ForSuffix else c
  }

  /** The merged label of a non-key "against" column. */
  function AgainstName(c: string, forColumns: seq<string>): string
  {
    if c in forColumns then c + AgainstSuffix else c
  }

  lemma SuffixedIsNotSeason(c: string)
    ensures c + ForSuffix != SeasonColumn && c + AgainstSuffix != SeasonColumn
  {
    if |c + ForSuffix| == |SeasonColumn| {
      assert (c + ForSuffix)[5] == 'r';
    }
  }

  function RemoveAt<T>(s: seq<T>, k: nat): (r: seq<T>)
    requires k < |s|
    ensures |r| == |s| - 1
    ensures forall j :: 0 <= j < |r| ==> r[j] == if j < k then s[j] else s[j + 1]
  {
    s[..k] + s[k + 1..]
  }

  /** Where an element other than the removed one ends up. */
  lemma RemoveAtIndex<T>(s: seq<T>, k: nat, m: nat)
    requires k < |s| && m < |s| && m != k
    ensures (if m < k then m else m - 1) < |RemoveAt(s, k)|
    ensures RemoveAt(s, k)[if m < k then m else m - 1] == s[m]
  {
  }

  /** The "against" labels without the join key, in order. */
  function AgainstRest(againstColumns: seq<string>): seq<string>
    requires TeamIdColumn in againstColumns
  {
    RemoveAt(againstColumns, IndexOf(againstColumns, TeamIdColumn))
  }

  /** Result labels of the join: the "for" labels, then the non-key "against"
      labels, each renamed as above. */
  function MergedColumns(forColumns: seq<string>, againstColumns: seq<string>): (cols: seq<string>)
    requires TeamIdColumn in againstColumns
    ensures |cols| == |forColumns| + |againstColumns| - 1
    ensures forall i :: 0 <= i < |forColumns| ==> cols[i] == ForName(forColumns[i], againstColumns)
    ensures forall j :: 0 <= j < |againstColumns| - 1 ==>
      cols[|forColumns| + j] == AgainstName(AgainstRest(againstColumns)[j], forColumns)
  {
    var rest := AgainstRest(againstColumns);
    seq(|forColumns|, i requires 0 <= i < |forColumns| => ForName(forColumns[i], againstColumns))
    + seq(|rest|, j requires 0 <= j < |rest| => AgainstName(rest[j], forColumns))
  }

  /** Pairs (i, j) with keys[i] == others[j] for one fixed i, by ascending j. */
  function RowMatches(keys: seq<Cell>, others: seq<Cell>, i: nat, j: nat): (ps: seq<(nat, nat)>)
    requires i < |keys| && j <= |others|
    ensures forall p :: p in ps <==> p.0 == i && j <= p.1 < |others| && others[p.1] == keys[i]
    ensures forall a, b :: 0 <= a < b < |ps| ==> ps[a].1 < ps[b].1
    decreases |others| - j
  {
    if j == |others| then []
    else
      var rest := RowMatches(keys, others, i, j + 1);
      var head := if others[j] == keys[i] then [(i, j)] else [];
      RowMatchesStep(keys, others, i, j, head, rest);
      head + rest
  }

  lemma RowMatchesStep(keys: seq<Cell>, others: seq<Cell>, i: nat, j: nat, head: seq<(nat, nat)>, rest: seq<(nat, nat)>)
    requires i < |keys| && j < |others|
    requires head == if others[j] == keys[i] then [(i, j)] else []
    requires forall p :: p in rest <==> p.0 == i && j + 1 <= p.1 < |others| && others[p.1] == keys[i]
    requires forall a, b :: 0 <= a < b < |rest| ==> rest[a].1 < rest[b].1
    ensures forall p :: p in head + rest <==> p.0 == i && j <= p.1 < |others| && others[p.1] == keys[i]
    ensures forall a, b :: 0 <= a < b < |head + rest| ==> (head + rest)[a].1 < (head + rest)[b].1
  {
    assert forall b :: 0 <= b < |rest| ==> rest[b] in rest;
  }

  /** All pairs (i, j) with keys[i] == others[j] and i >= from, ordered by i
      and then by j. */
  function PairsFrom(keys: seq<Cell>, others: seq<Cell>, from: nat): (ps: seq<(nat, nat)>)
    requires from <= |keys|
    ensures forall p :: p in ps <==> from <= p.0 < |keys| && p.1 < |others| && others[p.1] == keys[p.0]
    ensures forall a, b :: 0 <= a < b < |ps| ==>
      ps[a].0 < ps[b].0 || (ps[a].0 == ps[b].0 && ps[a].1 < ps[b].1)
    decreases |keys| - from
  {
    if from == |keys| then []
    else
      var head := RowMatches(keys, others, from, 0);
      var rest := PairsFrom(keys, others, from + 1);
      assert forall a :: 0 <= a < |head| ==> head[a] in head;
      assert forall b :: 0 <= b < |rest| ==> rest[b] in rest;
      head + rest
  }

  /** The inner join of two key columns: every pair of rows with equal keys,
      in the order of the "for" rows and, for one "for" row, of the
      "against" rows. */
  function JoinPairs(forKeys: seq<Cell>, againstKeys: seq<Cell>): (ps: seq<(nat, nat)>)
    ensures forall p :: p in ps <==>
      p.0 < |forKeys| && p.1 < |againstKeys| && forKeys[p.0] == againstKeys[p.1]
    ensures forall a, b :: 0 <= a < b < |ps| ==>
      ps[a].0 < ps[b].0 || (ps[a].0 == ps[b].0 && ps[a].1 < ps[b].1)
  {
    PairsFrom(forKeys, againstKeys, 0)
  }

  /** The join of the two frames' rows as `JoinPairs` on their `team_id` columns. */
  function FramePairs(forFrame: Frame, againstFrame: Frame): (ps: seq<(nat, nat)>)
    requires WellFormed(forFrame) && WellFormed(againstFrame)
    requires TeamIdColumn in forFrame.columns && TeamIdColumn in againstFrame.columns
    ensures forall k :: 0 <= k < |ps| ==> ps[k].0 < |forFrame.rows| && ps[k].1 < |againstFrame.rows|
  {
    var ps := JoinPairs(Column(forFrame, TeamIdColumn), Column(againstFrame, TeamIdColumn));
    assert forall k :: 0 <= k < |ps| ==> ps[k] in ps;
    ps
  }

  /** The inner join before the season stamp: one row per pair of
      `FramePairs`, the "for" cells followed by the non-key "against" cells. */
  function Joined(forFrame: Frame, againstFrame: Frame): (j: Frame)
    requires WellFormed(forFrame) && WellFormed(againstFrame)
    requires TeamIdColumn in forFrame.columns && TeamIdColumn in againstFrame.columns
    requires Distinct(MergedColumns(forFrame.columns, againstFrame.columns))
    ensures WellFormed(j) && j.columns == MergedColumns(forFrame.columns, againstFrame.columns)
    ensures |j.rows| == |FramePairs(forFrame, againstFrame)|
  {
    var kA := IndexOf(againstFrame.columns, TeamIdColumn);
    var ps := FramePairs(forFrame, againstFrame);
    Frame(MergedColumns(forFrame.columns, againstFrame.columns),
          seq(|ps|, k requires 0 <= k < |ps| =>
            forFrame.rows[ps[k].0] + RemoveAt(againstFrame.rows[ps[k].1], kA)))
  }

  /** `pd.merge(df_for, df_against, on="team_id", how="inner",
      suffixes=("_for", "_against"))` followed by `df_merged["season"] = season`.
      A renaming that yields the same label twice is refused. */
  function Merge(forFrame: Frame, againstFrame: Frame, season: string, category: string): (r: Result<Frame, Error>)
    requires WellFormed(forFrame) && WellFormed(againstFrame)
    requires TeamIdColumn in forFrame.columns && TeamIdColumn in againstFrame.columns
    ensures r.Success? ==> WellFormed(r.value) && |r.value.rows| == |FramePairs(forFrame, againstFrame)|
    ensures r.Failure? <==> !Distinct(MergedColumns(forFrame.columns, againstFrame.columns))
  {
    if !Distinct(MergedColumns(forFrame.columns, againstFrame.columns)) then
      Failure(DuplicateColumns(category))
    else
      var j := Joined(forFrame, againstFrame);
      Success(SetColumn(j, SeasonColumn, seq(|j.rows|, k => Text(season))))
  }

  /** Row `k` of the join: the cells of its "for" row, then those of its
      "against" row without the key. */
  lemma JoinedRow(forFrame: Frame, againstFrame: Frame, k: nat)
    requires WellFormed(forFrame) && WellFormed(againstFrame)
    requires TeamIdColumn in forFrame.columns && TeamIdColumn in againstFrame.columns
    requires Distinct(MergedColumns(forFrame.columns, againstFrame.columns))
    requires k < |FramePairs(forFrame, againstFrame)|
    ensures var p := FramePairs(forFrame, againstFrame)[k];
      && p.0 < |forFrame.rows| && p.1 < |againstFrame.rows|
      && Joined(forFrame, againstFrame).rows[k] ==
         forFrame.rows[p.0] + RemoveAt(againstFrame.rows[p.1], IndexOf(againstFrame.columns, TeamIdColumn))
  {
  }

  /** In a joined row, a "for" cell sits under its renamed label. */
  lemma ForCellOfRow(fc: seq<string>, ac: seq<string>, forRow: seq<Cell>, againstRow: seq<Cell>, c: string)
    requires TeamIdColumn in ac && c in fc && Distinct(MergedColumns(fc, ac))
    requires |forRow| == |fc| && |againstRow| == |ac|
    ensures var cols := MergedColumns(fc, ac);
      && ForName(c, ac) in cols
      && IndexOf(cols, ForName(c, ac)) < |forRow| + |ac| - 1
      && (forRow + RemoveAt(againstRow, IndexOf(ac, TeamIdColumn)))[IndexOf(cols, ForName(c, ac))] == forRow[IndexOf(fc, c)]
  {
    var cols := MergedColumns(fc, ac);
    var i := IndexOf(fc, c);
    assert cols[i] == ForName(c, ac);
    IndexOfDistinct(cols, i);
  }

  /** In a joined row, a non-key "against" cell sits after the "for" cells,
      at its own position counted without the key. */
  lemma RowAfterKeyDrop(forRow: seq<Cell>, againstRow: seq<Cell>, kA: nat, m: nat)
    requires kA < |againstRow| && m < |againstRow| && m != kA
    ensures |forRow| + (if m < kA then m else m - 1) < |forRow + RemoveAt(againstRow, kA)|
    ensures (forRow + RemoveAt(againstRow, kA))[|forRow| + (if m < kA then m else m - 1)] == againstRow[m]
  {
    RemoveAtIndex(againstRow, kA, m);
  }

  /** The merged position of a non-key "against" label: after the "for"
      labels, at its own position counted without the key. */
  lemma AgainstSlot(fc: seq<string>, ac: seq<string>, c: string)
    requires TeamIdColumn in ac && c in ac && c != TeamIdColumn && Distinct(MergedColumns(fc, ac))
    ensures var kA, m := IndexOf(ac, TeamIdColumn), IndexOf(ac, c);
      && m != kA
      && AgainstName(c, fc) in MergedColumns(fc, ac)
      && IndexOf(MergedColumns(fc, ac), AgainstName(c, fc)) == |fc| + (if m < kA then m else m - 1)
  {
    var cols := MergedColumns(fc, ac);
    var n, kA, m := |fc|, IndexOf(ac, TeamIdColumn), IndexOf(ac, c);
    assert m != kA;
    var q := if m < kA then m else m - 1;
    RemoveAtIndex(ac, kA, m);
    var rest := AgainstRest(ac);
    assert rest[q] == c;
    assert cols[n + q] == AgainstName(rest[q], fc);
    IndexOfDistinct(cols, n + q);
  }

  /** A "for" cell of a joined row, under its renamed label. */
  lemma JoinedForCell(forFrame: Frame, againstFrame: Frame, k: nat, c: string)
    requires WellFormed(forFrame) && WellFormed(againstFrame)
    requires TeamIdColumn in forFrame.columns && TeamIdColumn in againstFrame.columns
    requires Distinct(MergedColumns(forFrame.columns, againstFrame.columns))
    requires k < |FramePairs(forFrame, againstFrame)| && c in forFrame.columns
    ensures var j := Joined(forFrame, againstFrame);
      ForName(c, againstFrame.columns) in j.columns &&
      Lookup(j, k, ForName(c, againstFrame.columns)) ==
        Lookup(forFrame, FramePairs(forFrame, againstFrame)[k].0, c)
  {
    var p := FramePairs(forFrame, againstFrame)[k];
    JoinedRow(forFrame, againstFrame, k);
    ForCellOfRow(forFrame.columns, againstFrame.columns, forFrame.rows[p.0], againstFrame.rows[p.1], c);
  }

  /** A non-key "against" cell of a joined row, under its renamed label. */
  lemma JoinedAgainstCell(forFrame: Frame, againstFrame: Frame, k: nat, c: string)
    requires WellFormed(forFrame) && WellFormed(againstFrame)
    requires TeamIdColumn in forFrame.columns && TeamIdColumn in againstFrame.columns
    requires Distinct(MergedColumns(forFrame.columns, againstFrame.columns))
    requires k < |FramePairs(forFrame, againstFrame)|
    requires c in againstFrame.columns && c != TeamIdColumn
    ensures var j := Joined(forFrame, againstFrame);
      AgainstName(c, forFrame.columns) in j.columns &&
      Lookup(j, k, AgainstName(c, forFrame.columns)) ==
        Lookup(againstFrame, FramePairs(forFrame, againstFrame)[k].1, c)
  {
    var p := FramePairs(forFrame, againstFrame)[k];
    JoinedRow(forFrame, againstFrame, k);
    AgainstSlot(forFrame.columns, againstFrame.columns, c);
    assert |forFrame.rows[p.0]| == |forFrame.columns| && |againstFrame.rows[p.1]| == |againstFrame.columns|;
    RowAfterKeyDrop(forFrame.rows[p.0], againstFrame.rows[p.1],
      IndexOf(againstFrame.columns, TeamIdColumn), IndexOf(againstFrame.columns, c));
  }

  /** Labels of a successful merge: the key and the season once each, a
      label on one side only unchanged, a shared non-key label twice, with
      "_for" and with "_against", and nothing else. */
  lemma MergeColumns(forFrame: Frame, againstFrame: Frame, season: string, category: string)
    requires WellFormed(forFrame) && WellFormed(againstFrame)
    requires TeamIdColumn in forFrame.columns && TeamIdColumn in againstFrame.columns
    requires Merge(forFrame, againstFrame, season, category).Success?
    ensures var cols := Merge(forFrame, againstFrame, season, category).value.columns;
      TeamIdColumn in cols && SeasonColumn in cols
    ensures var cols := Merge(forFrame, againstFrame, season, category).value.columns;
      forall c :: c in forFrame.columns && c in againstFrame.columns && c != TeamIdColumn ==>
        c + ForSuffix in cols && c + AgainstSuffix in cols
    ensures var cols := Merge(forFrame, againstFrame, season, category).value.columns;
      forall c :: c in forFrame.columns && c !in againstFrame.columns ==> c in cols
    ensures var cols := Merge(forFrame, againstFrame, season, category).value.columns;
      forall c :: c in againstFrame.columns && c !in forFrame.columns ==> c in cols
    ensures var cols := Merge(forFrame, againstFrame, season, category).value.columns;
      forall x :: x in cols ==>
        x == SeasonColumn || x == TeamIdColumn ||
        (x in forFrame.columns && x !in againstFrame.columns) ||
        (x in againstFrame.columns && x !in forFrame.columns) ||
        exists c :: c in forFrame.columns && c in againstFrame.columns && c != TeamIdColumn &&
          (x == c + ForSuffix || x == c + AgainstSuffix)
  {
    MergeLabels(forFrame, againstFrame, season, category);
    StampedLabels(forFrame.columns, againstFrame.columns, Merge(forFrame, againstFrame, season, category).value.columns);
  }

  /** The labels of a successful merge are those of the join, with the
      season label added unless already there. */
  lemma MergeLabels(forFrame: Frame, againstFrame: Frame, season: string, category: string)
    requires WellFormed(forFrame) && WellFormed(againstFrame)
    requires TeamIdColumn in forFrame.columns && TeamIdColumn in againstFrame.columns
    requires Merge(forFrame, againstFrame, season, category).Success?
    ensures var mc := MergedColumns(forFrame.columns, againstFrame.columns);
      Merge(forFrame, againstFrame, season, category).value.columns ==
        if SeasonColumn in mc then mc else mc + [SeasonColumn]
  {
  }

  /** The label facts of `MergeColumns`, for the join labels with the season added. */
  lemma StampedLabels(fc: seq<string>, ac: seq<string>, cols: seq<string>)
    requires TeamIdColumn in fc && TeamIdColumn in ac && Distinct(ac)
    requires var mc := MergedColumns(fc, ac); cols == if SeasonColumn in mc then mc else mc + [SeasonColumn]
    ensures TeamIdColumn in cols && SeasonColumn in cols
    ensures forall c :: c in fc && c in ac && c != TeamIdColumn ==> c + ForSuffix in cols && c + AgainstSuffix in cols
    ensures forall c :: c in fc && c !in ac ==> c in cols
    ensures forall c :: c in ac && c !in fc ==> c in cols
    ensures forall x :: x in cols ==>
      x == SeasonColumn || x == TeamIdColumn || (x in fc && x !in ac) || (x in ac && x !in fc) ||
      exists c :: c in fc && c in ac && c != TeamIdColumn && (x == c + ForSuffix || x == c + AgainstSuffix)
  {
    var mc := MergedColumns(fc, ac);
    MergedLabelsPresent(fc, ac);
    MergedLabelsOrigin(fc, ac);
    assert ForName(TeamIdColumn, ac) == TeamIdColumn;
    forall x | x in cols
      ensures x == SeasonColumn || x == TeamIdColumn ||
        (x in fc && x !in ac) || (x in ac && x !in fc) ||
        exists c :: c in fc && c in ac && c != TeamIdColumn && (x == c + ForSuffix || x == c + AgainstSuffix)
    {
      if x != SeasonColumn {
        assert x in mc;
      }
    }
  }

  /** Every "for" label and every non-key "against" label reaches the merged
      labels under its renamed form. */
  lemma MergedLabelsPresent(fc: seq<string>, ac: seq<string>)
    requires TeamIdColumn in ac && Distinct(ac)
    ensures forall c :: c in fc ==> ForName(c, ac) in MergedColumns(fc, ac)
    ensures forall c :: c in ac && c != TeamIdColumn ==> AgainstName(c, fc) in MergedColumns(fc, ac)
  {
    var mc := MergedColumns(fc, ac);
    var kA := IndexOf(ac, TeamIdColumn);
    var rest := AgainstRest(ac);
    forall c | c in fc
      ensures ForName(c, ac) in mc
    {
      assert mc[IndexOf(fc, c)] == ForName(c, ac);
    }
    forall c | c in ac && c != TeamIdColumn
      ensures AgainstName(c, fc) in mc
    {
      var m := IndexOf(ac, c);
      var q := if m < kA then m else m - 1;
      assert rest[q] == c;
      assert mc[|fc| + q] == AgainstName(c, fc);
    }
  }

  /** The `q`-th non-key "against" label is an "against" label other than the key. */
  lemma AgainstLabelAt(fc: seq<string>, ac: seq<string>, q: nat) returns (c: string)
    requires TeamIdColumn in ac && Distinct(ac) && q < |ac| - 1
    ensures c == AgainstRest(ac)[q] && c in ac && c != TeamIdColumn
    ensures MergedColumns(fc, ac)[|fc| + q] == AgainstName(c, fc)
  {
    var kA := IndexOf(ac, TeamIdColumn);
    c := AgainstRest(ac)[q];
    var m := if q < kA then q else q + 1;
    assert c == ac[m] && m != kA;
  }

  /** Every merged label is a renamed "for" label or a renamed non-key
      "against" label. */
  lemma MergedLabelsOrigin(fc: seq<string>, ac: seq<string>)
    requires TeamIdColumn in ac && Distinct(ac)
    ensures forall x :: x in MergedColumns(fc, ac) ==>
      (x in fc && x !in ac) || (x in ac && x !in fc) || x == TeamIdColumn ||
      exists c :: c in fc && c in ac && c != TeamIdColumn && (x == c + ForSuffix || x == c + AgainstSuffix)
  {
    var mc := MergedColumns(fc, ac);
    var kA := IndexOf(ac, TeamIdColumn);
    var rest := AgainstRest(ac);
    forall x | x in mc
      ensures (x in fc && x !in ac) || (x in ac && x !in fc) || x == TeamIdColumn ||
        exists c :: c in fc && c in ac && c != TeamIdColumn && (x == c + ForSuffix || x == c + AgainstSuffix)
    {
      var i :| 0 <= i < |mc| && mc[i] == x;
      if i < |fc| {
        assert x == ForName(fc[i], ac) && fc[i] in fc;
      } else {
        var c := AgainstLabelAt(fc, ac, i - |fc|);
        assert x == AgainstName(c, fc);
      }
    }
  }

  /** Row `k` of a successful merge joins the `k`-th pair of `FramePairs`:
      the two rows share their team id, every other cell keeps its value
      under its renamed label, and the season cell holds the season. */
  lemma MergeRowValues(forFrame: Frame, againstFrame: Frame, season: string, category: string, k: nat)
    requires WellFormed(forFrame) && WellFormed(againstFrame)
    requires TeamIdColumn in forFrame.columns && TeamIdColumn in againstFrame.columns
    requires Merge(forFrame, againstFrame, season, category).Success?
    requires k < |Merge(forFrame, againstFrame, season, category).value.rows|
    ensures var r := Merge(forFrame, againstFrame, season, category).value;
      SeasonColumn in r.columns && Lookup(r, k, SeasonColumn) == Text(season)
    ensures var p := FramePairs(forFrame, againstFrame)[k];
      Lookup(forFrame, p.0, TeamIdColumn) == Lookup(againstFrame, p.1, TeamIdColumn)
    ensures var r, p := Merge(forFrame, againstFrame, season, category).value, FramePairs(forFrame, againstFrame)[k];
      forall c :: c in forFrame.columns && c != SeasonColumn ==>
        ForName(c, againstFrame.columns) in r.columns &&
        Lookup(r, k, ForName(c, againstFrame.columns)) == Lookup(forFrame, p.0, c)
    ensures var r, p := Merge(forFrame, againstFrame, season, category).value, FramePairs(forFrame, againstFrame)[k];
      forall c :: c in againstFrame.columns && c != TeamIdColumn && c != SeasonColumn ==>
        AgainstName(c, forFrame.columns) in r.columns &&
        Lookup(r, k, AgainstName(c, forFrame.columns)) == Lookup(againstFrame, p.1, c)
  {
    var r := Merge(forFrame, againstFrame, season, category).value;
    var p := FramePairs(forFrame, againstFrame)[k];
    PairKeys(forFrame, againstFrame, k);
    MergeStamp(forFrame, againstFrame, season, category, k);
    forall c | c in forFrame.columns && c != SeasonColumn
      ensures ForName(c, againstFrame.columns) in r.columns
      ensures Lookup(r, k, ForName(c, againstFrame.columns)) == Lookup(forFrame, p.0, c)
    {
      MergeForCell(forFrame, againstFrame, season, category, k, c);
    }
    forall c | c in againstFrame.columns && c != TeamIdColumn && c != SeasonColumn
      ensures AgainstName(c, forFrame.columns) in r.columns
      ensures Lookup(r, k, AgainstName(c, forFrame.columns)) == Lookup(againstFrame, p.1, c)
    {
      MergeAgainstCell(forFrame, againstFrame, season, category, k, c);
    }
  }

  /** The two rows of a pair share their team id. */
  lemma PairKeys(forFrame: Frame, againstFrame: Frame, k: nat)
    requires WellFormed(forFrame) && WellFormed(againstFrame)
    requires TeamIdColumn in forFrame.columns && TeamIdColumn in againstFrame.columns
    requires k < |FramePairs(forFrame, againstFrame)|
    ensures var p := FramePairs(forFrame, againstFrame)[k];
      Lookup(forFrame, p.0, TeamIdColumn) == Lookup(againstFrame, p.1, TeamIdColumn)
  {
    var ps := FramePairs(forFrame, againstFrame);
    assert ps[k] in ps;
    assert Column(forFrame, TeamIdColumn)[ps[k].0] == Column(againstFrame, TeamIdColumn)[ps[k].1];
  }

  lemma MergeForCell(forFrame: Frame, againstFrame: Frame, season: string, category: string, k: nat, c: string)
    requires WellFormed(forFrame) && WellFormed(againstFrame)
    requires TeamIdColumn in forFrame.columns && TeamIdColumn in againstFrame.columns
    requires Merge(forFrame, againstFrame, season, category).Success?
    requires k < |Merge(forFrame, againstFrame, season, category).value.rows|
    requires c in forFrame.columns && c != SeasonColumn
    ensures var r, p := Merge(forFrame, againstFrame, season, category).value, FramePairs(forFrame, againstFrame)[k];
      ForName(c, againstFrame.columns) in r.columns &&
      Lookup(r, k, ForName(c, againstFrame.columns)) == Lookup(forFrame, p.0, c)
  {
    JoinedForCell(forFrame, againstFrame, k, c);
    SuffixedIsNotSeason(c);
    MergeKeepsJoined(forFrame, againstFrame, season, category, k, ForName(c, againstFrame.columns));
  }

  lemma MergeAgainstCell(forFrame: Frame, againstFrame: Frame, season: string, category: string, k: nat, c: string)
    requires WellFormed(forFrame) && WellFormed(againstFrame)
    requires TeamIdColumn in forFrame.columns && TeamIdColumn in againstFrame.columns
    requires Merge(forFrame, againstFrame, season, category).Success?
    requires k < |Merge(forFrame, againstFrame, season, category).value.rows|
    requires c in againstFrame.columns && c != TeamIdColumn && c != SeasonColumn
    ensures var r, p := Merge(forFrame, againstFrame, season, category).value, FramePairs(forFrame, againstFrame)[k];
      AgainstName(c, forFrame.columns) in r.columns &&
      Lookup(r, k, AgainstName(c, forFrame.columns)) == Lookup(againstFrame, p.1, c)
  {
    JoinedAgainstCell(forFrame, againstFrame, k, c);
    SuffixedIsNotSeason(c);
    MergeKeepsJoined(forFrame, againstFrame, season, category, k, AgainstName(c, forFrame.columns));
  }

  /** The season column of a merged row holds the season label. */
  lemma MergeStamp(forFrame: Frame, againstFrame: Frame, season: string, category: string, k: nat)
    requires WellFormed(forFrame) && WellFormed(againstFrame)
    requires TeamIdColumn in forFrame.columns && TeamIdColumn in againstFrame.columns
    requires Merge(forFrame, againstFrame, season, category).Success?
    requires k < |Merge(forFrame, againstFrame, season, category).value.rows|
    ensures var r := Merge(forFrame, againstFrame, season, category).value;
      SeasonColumn in r.columns && Lookup(r, k, SeasonColumn) == Text(season)
  {
  }

  /** Stamping the season leaves every other column of the join as it was. */
  lemma MergeKeepsJoined(forFrame: Frame, againstFrame: Frame, season: string, category: string, k: nat, x: string)
    requires WellFormed(forFrame) && WellFormed(againstFrame)
    requires TeamIdColumn in forFrame.columns && TeamIdColumn in againstFrame.columns
    requires Merge(forFrame, againstFrame, season, category).Success?
    requires k < |Merge(forFrame, againstFrame, season, category).value.rows|
    requires x in Joined(forFrame, againstFrame).columns && x != SeasonColumn
    ensures var r := Merge(forFrame, againstFrame, season, category).value;
      x in r.columns && Lookup(r, k, x) == Lookup(Joined(forFrame, againstFrame), k, x)
  {
  }

  /** Two rows with equal team ids are joined by some pair of `FramePairs`. */
  lemma PairIndex(forFrame: Frame, againstFrame: Frame, i: nat, j: nat) returns (k: nat)
    requires WellFormed(forFrame) && WellFormed(againstFrame)
    requires TeamIdColumn in forFrame.columns && TeamIdColumn in againstFrame.columns
    requires i < |forFrame.rows| && j < |againstFrame.rows|
    requires Lookup(forFrame, i, TeamIdColumn) == Lookup(againstFrame, j, TeamIdColumn)
    ensures k < |FramePairs(forFrame, againstFrame)| && FramePairs(forFrame, againstFrame)[k] == (i, j)
  {
    var fk, ak := Column(forFrame, TeamIdColumn), Column(againstFrame, TeamIdColumn);
    var ps := FramePairs(forFrame, againstFrame);
    assert ps == JoinPairs(fk, ak);
    assert (i, j) in ps;
    k :| 0 <= k < |ps| && ps[k] == (i, j);
  }

  /** The team id column of a successful merge, row by row: the ids of the
      two rows of each pair, which agree. */
  lemma MergeKeyColumn(forFrame: Frame, againstFrame: Frame, season: string, category: string)
    requires WellFormed(forFrame) && WellFormed(againstFrame)
    requires TeamIdColumn in forFrame.columns && TeamIdColumn in againstFrame.columns
    requires Merge(forFrame, againstFrame, season, category).Success?
    ensures var r, ps := Merge(forFrame, againstFrame, season, category).value, FramePairs(forFrame, againstFrame);
      && TeamIdColumn in r.columns
      && |Column(r, TeamIdColumn)| == |ps|
      && forall k :: 0 <= k < |ps| ==>
           Column(r, TeamIdColumn)[k] == Column(forFrame, TeamIdColumn)[ps[k].0] &&
           Column(r, TeamIdColumn)[k] == Column(againstFrame, TeamIdColumn)[ps[k].1]
  {
    var r := Merge(forFrame, againstFrame, season, category).value;
    var ps := FramePairs(forFrame, againstFrame);
    assert ForName(TeamIdColumn, againstFrame.columns) == TeamIdColumn;
    MergeLabels(forFrame, againstFrame, season, category);
    MergedLabelsPresent(forFrame.columns, againstFrame.columns);
    assert TeamIdColumn in r.columns;
    forall k | 0 <= k < |ps|
      ensures Column(r, TeamIdColumn)[k] == Column(forFrame, TeamIdColumn)[ps[k].0]
      ensures Column(r, TeamIdColumn)[k] == Column(againstFrame, TeamIdColumn)[ps[k].1]
    {
      MergeForCell(forFrame, againstFrame, season, category, k, TeamIdColumn);
      PairKeys(forFrame, againstFrame, k);
    }
  }

  /** The team ids of a successful merge are exactly the ids present on both
      sides: a team found on one side only is dropped. */
  lemma MergeKeys(forFrame: Frame, againstFrame: Frame, season: string, category: string)
    requires WellFormed(forFrame) && WellFormed(againstFrame)
    requires TeamIdColumn in forFrame.columns && TeamIdColumn in againstFrame.columns
    requires Merge(forFrame, againstFrame, season, category).Success?
    ensures var r := Merge(forFrame, againstFrame, season, category).value;
      TeamIdColumn in r.columns &&
      Elements(Column(r, TeamIdColumn)) ==
        Elements(Column(forFrame, TeamIdColumn)) * Elements(Column(againstFrame, TeamIdColumn))
  {
    MergeKeyColumn(forFrame, againstFrame, season, category);
    var fk, ak := Column(forFrame, TeamIdColumn), Column(againstFrame, TeamIdColumn);
    assert FramePairs(forFrame, againstFrame) == JoinPairs(fk, ak);
    JoinKeys(Column(Merge(forFrame, againstFrame, season, category).value, TeamIdColumn), fk, ak);
  }

  /** Keys read off the pairs of an inner join are the keys common to both sides. */
  lemma JoinKeys(rk: seq<Cell>, fk: seq<Cell>, ak: seq<Cell>)
    requires |rk| == |JoinPairs(fk, ak)|
    requires forall k :: 0 <= k < |rk| ==> rk[k] == fk[JoinPairs(fk, ak)[k].0]
    ensures Elements(rk) == Elements(fk) * Elements(ak)
  {
    var ps := JoinPairs(fk, ak);
    assert forall k :: 0 <= k < |ps| ==> ps[k] in ps;
    forall x | x in fk && x in ak
      ensures x in rk
    {
      var i :| 0 <= i < |fk| && fk[i] == x;
      var j :| 0 <= j < |ak| && ak[j] == x;
      assert (i, j) in ps;
      var k :| 0 <= k < |ps| && ps[k] == (i, j);
      assert rk[k] == x;
    }
  }

  /** When each side lists a team at most once, so does the merge. */
  lemma MergeUniqueKeys(forFrame: Frame, againstFrame: Frame, season: string, category: string)
    requires WellFormed(forFrame) && WellFormed(againstFrame)
    requires TeamIdColumn in forFrame.columns && TeamIdColumn in againstFrame.columns
    requires Merge(forFrame, againstFrame, season, category).Success?
    requires Distinct(Column(forFrame, TeamIdColumn)) && Distinct(Column(againstFrame, TeamIdColumn))
    ensures var r := Merge(forFrame, againstFrame, season, category).value;
      TeamIdColumn in r.columns && Distinct(Column(r, TeamIdColumn))
  {
    MergeKeyColumn(forFrame, againstFrame, season, category);
    var fk, ak := Column(forFrame, TeamIdColumn), Column(againstFrame, TeamIdColumn);
    assert FramePairs(forFrame, againstFrame) == JoinPairs(fk, ak);
    JoinUniqueKeys(Column(Merge(forFrame, againstFrame, season, category).value, TeamIdColumn), fk, ak);
  }

  /** Keys read off the pairs of an inner join of two key columns without
      repeats have no repeats either. */
  lemma JoinUniqueKeys(rk: seq<Cell>, fk: seq<Cell>, ak: seq<Cell>)
    requires Distinct(fk) && Distinct(ak)
    requires |rk| == |JoinPairs(fk, ak)|
    requires forall k :: 0 <= k < |rk| ==>
      rk[k] == fk[JoinPairs(fk, ak)[k].0] && rk[k] == ak[JoinPairs(fk, ak)[k].1]
    ensures Distinct(rk)
  {
    var ps := JoinPairs(fk, ak);
    assert forall k :: 0 <= k < |ps| ==> ps[k] in ps;
    forall a, b | 0 <= a < b < |rk|
      ensures rk[a] != rk[b]
    {
      assert ps[a] != ps[b];
    }
  }

  /** `parse_and_merge_team_category(soup, category)` for a given season label. */
  function MergedCategory(page: Page, category: string, season: string): (r: Result<Frame, Error>)
    ensures r.Success? ==> WellFormed(r.value)
  {
    match NormalizedTable(page, ForTableId(category))
    case Failure(e) => Failure(e)
    case Success(forFrame) =>
      match NormalizedTable(page, AgainstTableId(category))
      case Failure(e) => Failure(e)
      case Success(againstFrame) => Merge(forFrame, againstFrame, season, category)
  }

  /** Every row a category merge produces carries the season label. */
  lemma MergedCategoryStamped(page: Page, category: string, season: string)
    requires MergedCategory(page, category, season).Success?
    ensures var r := MergedCategory(page, category, season).value;
      SeasonColumn in r.columns && forall k :: 0 <= k < |r.rows| ==> Lookup(r, k, SeasonColumn) == Text(season)
  {
    var forFrame := NormalizedTable(page, ForTableId(category)).value;
    var againstFrame := NormalizedTable(page, AgainstTableId(category)).value;
    var r := MergedCategory(page, category, season).value;
    assert r == Merge(forFrame, againstFrame, season, category).value;
    forall k | 0 <= k < |r.rows|
      ensures SeasonColumn in r.columns && Lookup(r, k, SeasonColumn) == Text(season)
    {
      MergeRowValues(forFrame, againstFrame, season, category, k);
    }
    MergeColumns(forFrame, againstFrame, season, category);
  }

  /** `parse_and_merge_team_category` as the scraper runs it: both tables are
      cleaned, joined, and stamped with the season of `today`. */
  method ParseAndMerge(page: Page, category: string, today: Date) returns (r: Result<Frame, Error>)
    requires ValidDate(today)
    ensures r == MergedCategory(page, category, CurrentSeason(today))
  {
    var forFrame := CleanTable(page, ForTableId(category));
    if forFrame.Failure? {
      return Failure(forFrame.error);
    }
    var againstFrame := CleanTable(page, AgainstTableId(category));
    if againstFrame.Failure? {
      return Failure(againstFrame.error);
    }
    r := Merge(forFrame.value, againstFrame.value, CurrentSeason(today), category);
  }
}
