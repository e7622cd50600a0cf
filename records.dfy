/**
 * What both pipelines produce: one record (a dict from column name to
 * value) per resume, one 0/1 column per skill label, and the batch
 * bookkeeping around them.
 */
module Records {
  import opened Base

  /** A column value: a string, a 0/1 skill flag, or Python's None. */
  datatype Value = Text(text: string) | Flag(flag: int) | Null

  /** A record: column name to value. */
  type Row = map<string, Value>

  /** The record after `for skill in skills: data[skill] = flag(skill)`:
      every skill gets its flag, whatever was stored under that key before,
      and every other column keeps its value. */
  function Filled(row: Row, skills: seq<string>, flag: string -> int): (r: Row)
    ensures r.Keys == row.Keys + (set s | s in skills)
    ensures forall s :: s in skills ==> r[s] == Flag(flag(s))
    ensures forall k :: k in row && k !in skills ==> r[k] == row[k]
    decreases |skills|
  {
    if skills == [] then row
    else
      var init, last := skills[..|skills| - 1], skills[|skills| - 1];
      assert forall s :: s in skills <==> s in init || s == last;
      Filled(row, init, flag)[last := Flag(flag(last))]
  }

  /** One step of the skill loop. */
  lemma FilledStep(row: Row, skills: seq<string>, flag: string -> int, i: nat)
    requires i < |skills|
    ensures Filled(row, skills[..i + 1], flag) == Filled(row, skills[..i], flag)[skills[i] := Flag(flag(skills[i]))]
  {
    assert skills[..i + 1][..i] == skills[..i];
  }

  /** The skill loop of both pipelines: `data[skill] = flag(skill)` for
      each skill in turn. */
  method FillFlags(row: Row, skills: seq<string>, flag: string -> int) returns (r: Row)
    ensures r == Filled(row, skills, flag)
  {
    r := row;
    for i := 0 to |skills|
      invariant r == Filled(row, skills[..i], flag)
    {
      FilledStep(row, skills, flag, i);
      r := r[skills[i] := Flag(flag(skills[i]))];
    }
    assert skills[..|skills|] == skills;
  }

  /** The first 100 uploads (all of them when there are at most 100). */
  function Capped<T>(xs: seq<T>): (r: seq<T>)
    ensures |r| == if |xs| > 100 then 100 else |xs|
    ensures r == xs[..|r|]
  {
    if |xs| > 100 then xs[..100] else xs
  }

  /** `sum(1 for data in rows if data.get(skill) == 1)` */
  function CountFlagged(rows: seq<Row>, skill: string): (n: nat)
    ensures n <= |rows|
    decreases |rows|
  {
    if rows == [] then 0
    else
      var last := rows[|rows| - 1];
      CountFlagged(rows[..|rows| - 1], skill) + (if skill in last && last[skill] == Flag(1) then 1 else 0)
  }

  /** The per-skill counts over the records. */
  function Counts(rows: seq<Row>, skills: seq<string>): map<string, nat> {
    map s | s in skills :: CountFlagged(rows, s)
  }

  /** `skill_counts`: filled one skill at a time. */
  method SkillCounts(rows: seq<Row>, skills: seq<string>) returns (counts: map<string, nat>)
    ensures counts == Counts(rows, skills)
  {
    counts := map[];
    for i := 0 to |skills|
      invariant counts == Counts(rows, skills[..i])
    {
      assert forall s :: s in skills[..i + 1] <==> s in skills[..i] || s == skills[i];
      counts := counts[skills[i] := CountFlagged(rows, skills[i])];
    }
    assert skills[..|skills|] == skills;
  }

  /** Every count is at most the number of records, and a count is the
      number of records that flag the skill with 1. */
  lemma CountsSpec(rows: seq<Row>, skills: seq<string>)
    ensures Counts(rows, skills).Keys == set s | s in skills
    ensures forall s :: s in skills ==> Counts(rows, skills)[s] <= |rows|
    ensures forall s :: s in skills ==> Counts(rows, skills)[s] == |FlaggedIndices(rows, s)|
  {
    forall s | s in skills ensures Counts(rows, skills)[s] == |FlaggedIndices(rows, s)| {
      CountFlaggedSpec(rows, s);
    }
  }

  /** The positions of the records that flag the skill with 1. */
  function FlaggedIndices(rows: seq<Row>, skill: string): set<nat> {
    set k: nat | k < |rows| && skill in rows[k] && rows[k][skill] == Flag(1)
  }

  lemma {:induction false} CountFlaggedSpec(rows: seq<Row>, skill: string)
    ensures CountFlagged(rows, skill) == |FlaggedIndices(rows, skill)|
    decreases |rows|
  {
    if rows != [] {
      var n := |rows| - 1;
      var init := rows[..n];
      CountFlaggedSpec(init, skill);
      var before := FlaggedIndices(init, skill);
      assert forall k: nat :: k < n ==> init[k] == rows[k];
      if skill in rows[n] && rows[n][skill] == Flag(1) {
        assert FlaggedIndices(rows, skill) == before + {n};
      } else {
        assert FlaggedIndices(rows, skill) == before;
      }
    }
  }

  /** The values `f` gives, in order, skipping the items it gives None for:
      the records a loop appends when it keeps each non-None result. */
  function Kept<U, R>(xs: seq<U>, f: U -> Option<R>): (r: seq<R>)
    ensures |r| <= |xs|
    decreases |xs|
  {
    if xs == [] then []
    else
      var last := xs[|xs| - 1];
      Kept(xs[..|xs| - 1], f) + (if f(last).Some? then [f(last).value] else [])
  }

  /** One step of such a loop. */
  lemma KeptStep<U, R>(xs: seq<U>, f: U -> Option<R>, i: nat)
    requires i < |xs|
    ensures Kept(xs[..i + 1], f) == Kept(xs[..i], f) + (if f(xs[i]).Some? then [f(xs[i]).value] else [])
  {
    assert xs[..i + 1][..i] == xs[..i];
  }

  /** The kept values are the results of the items that give one, in
      order: `idx` lists those items' positions, increasing, and a position
      is listed exactly when its item gives a value. */
  lemma {:induction false} KeptSpec<U, R>(xs: seq<U>, f: U -> Option<R>) returns (idx: seq<nat>)
    ensures |idx| == |Kept(xs, f)|
    ensures forall k :: 0 <= k < |idx| ==> idx[k] < |xs| && f(xs[idx[k]]) == Some(Kept(xs, f)[k])
    ensures forall k, l :: 0 <= k < l < |idx| ==> idx[k] < idx[l]
    ensures forall j :: 0 <= j < |xs| ==> (j in idx <==> f(xs[j]).Some?)
    decreases |xs|
  {
    if xs == [] {
      idx := [];
    } else {
      var n := |xs| - 1;
      var init := xs[..n];
      var before := KeptSpec(init, f);
      assert forall j :: 0 <= j < n ==> init[j] == xs[j];
      if f(xs[n]).Some? {
        idx := before + [n];
      } else {
        idx := before;
      }
    }
  }
}
