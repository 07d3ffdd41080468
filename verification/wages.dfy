/** The record shape shared by the "current" and "next" wage schedules, and the
    first-match search that both the merge and the single-prefecture lookup use. */
module Wages {
  import opened Wrappers

  /** A prefecture name such as "Tokyo"; compared with plain equality. */
  type PrefectureName = string

  /** A point in time as epoch milliseconds. How a date string becomes one is
      not part of this model. */
  type Instant = int

  /** One prefecture's minimum wage entry. */
  datatype MinimumWage = MinimumWage(
    prefectureName: PrefectureName,
    hourlyWage: int,
    effectiveStartDate: Instant)

  /** A wage schedule: records in file order. */
  type Dataset = seq<MinimumWage>

  /** Some record of `ws` carries `name`. */
  ghost predicate HasName(ws: Dataset, name: PrefectureName) {
    exists i :: 0 <= i < |ws| && ws[i].prefectureName == name
  }

  /** `i` is the smallest index of `ws` whose record carries `name`. */
  ghost predicate IsFirstMatch(ws: Dataset, name: PrefectureName, i: int) {
    && 0 <= i < |ws|
    && ws[i].prefectureName == name
    && forall j :: 0 <= j < i ==> ws[j].prefectureName != name
  }

  /** `w` is the record at the first index of `ws` that carries `name`. */
  ghost predicate IsFirstWithName(ws: Dataset, name: PrefectureName, w: MinimumWage) {
    exists i :: IsFirstMatch(ws, name, i) && ws[i] == w
  }

  /** No two records of `ws` carry the same prefecture name; the invariant the
      shipped schedules are expected to keep. */
  ghost predicate UniqueNames(ws: Dataset) {
    forall i, j :: 0 <= i < j < |ws| ==> ws[i].prefectureName != ws[j].prefectureName
  }

  /** The first record carrying `name`, scanning from the front, or `None` when
      there is none (the array `find` with a name-equality callback). */
  function Find(ws: Dataset, name: PrefectureName): (r: Option<MinimumWage>)
    ensures r.None? <==> !HasName(ws, name)
    ensures r.Some? ==> IsFirstWithName(ws, name, r.value)
  {
    if |ws| == 0 then None
    else if ws[0].prefectureName == name then
      assert IsFirstMatch(ws, name, 0);
      Some(ws[0])
    else
      var rest := Find(ws[1..], name);
      assert HasName(ws, name) ==> HasName(ws[1..], name) by {
        if HasName(ws, name) {
          var i :| 0 <= i < |ws| && ws[i].prefectureName == name;
          assert ws[1..][i - 1].prefectureName == name;
        }
      }
      assert rest.Some? ==> IsFirstWithName(ws, name, rest.value) by {
        if rest.Some? {
          var i :| IsFirstMatch(ws[1..], name, i) && ws[1..][i] == rest.value;
          assert IsFirstMatch(ws, name, i + 1);
        }
      }
      rest
  }

  /** The first-match search is determined by its specification: whatever
      record sits at the first index carrying `name` is the one found. */
  lemma FindIsFirstWithName(ws: Dataset, name: PrefectureName, w: MinimumWage)
    requires IsFirstWithName(ws, name, w)
    ensures Find(ws, name) == Some(w)
  {
  }

  /** Two datasets whose records carry the same names index by index have
      their first matches for any name at the same place. */
  lemma SameNamesSameFirstMatch(a: Dataset, b: Dataset, name: PrefectureName, k: int)
    requires |a| == |b|
    requires forall i :: 0 <= i < |a| ==> a[i].prefectureName == b[i].prefectureName
    ensures IsFirstMatch(a, name, k) <==> IsFirstMatch(b, name, k)
    ensures HasName(a, name) <==> HasName(b, name)
  {
  }
}
