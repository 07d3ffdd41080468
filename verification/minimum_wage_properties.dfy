/** Properties of the merge and of the two entry points, relating the bulk and
    single-prefecture paths, the force mode, and the date boundary. */
module MinimumWageProperties {
  import opened Wrappers
  import opened Wages
  import opened MinimumWageLookup

  /** A successful merge is index-aligned with "next": the same length, the
      same prefecture at every index, the "next" record itself once it is in
      force (the start instant included) and, before that, exactly the record
      the first-match search finds in "current" for that prefecture. */
  lemma MergeAt(current: Dataset, next: Dataset, date: Instant, i: int)
    requires CreateCurrentMinimumWages(current, next, date).Success?
    requires 0 <= i < |next|
    ensures |CreateCurrentMinimumWages(current, next, date).value| == |next|
    ensures CreateCurrentMinimumWages(current, next, date).value[i].prefectureName == next[i].prefectureName
    ensures next[i].effectiveStartDate <= date ==>
      CreateCurrentMinimumWages(current, next, date).value[i] == next[i]
    ensures date < next[i].effectiveStartDate ==>
      Find(current, next[i].prefectureName) == Some(CreateCurrentMinimumWages(current, next, date).value[i])
  {
  }

  /** A successful merge keeps the prefectures of "next" in order, so unique
      names in "next" stay unique in the merged schedule. */
  lemma MergeKeepsUniqueNames(current: Dataset, next: Dataset, date: Instant)
    requires CreateCurrentMinimumWages(current, next, date).Success?
    requires UniqueNames(next)
    ensures UniqueNames(CreateCurrentMinimumWages(current, next, date).value)
  {
  }

  /** When every "next" record is already in force, the merge cannot fail and
      yields "next" unchanged, whatever "current" holds. */
  lemma AllEffectiveMergeIsNext(current: Dataset, next: Dataset, date: Instant)
    requires forall i :: 0 <= i < |next| ==> next[i].effectiveStartDate <= date
    ensures CreateCurrentMinimumWages(current, next, date) == Success(next)
  {
    assert forall i :: 0 <= i < |next| ==> IsEffective(next[i], date);
    var merged := CreateCurrentMinimumWages(current, next, date).value;
    forall i | 0 <= i < |next| ensures merged[i] == next[i] {
      assert ResolvedAs(current, next[i], date, merged[i]);
    }
    assert merged == next;
  }

  /** Force mode ignores the date and the "current" schedule: both entry points
      read the "next" schedule verbatim. */
  lemma ForceModeIgnoresDate(current: Dataset, next: Dataset, date: Instant, name: PrefectureName)
    ensures GetMinimumWages(current, next, true, date) == Success(next)
    ensures GetMinimumWage(Some(name), current, next, true, date) == Success(Find(next, name))
  {
  }

  /** The lookup of a prefecture that "next" carries returns the bulk
      result's record at the first index of that prefecture in "next", in
      either mode, once the bulk call succeeds. Duplicate names in "next" are
      allowed: the later ones are never reached by the lookup. */
  lemma LookupIsFirstBulkMatch(current: Dataset, next: Dataset, forceGetNextYear: bool, date: Instant,
                               name: PrefectureName, k: int)
    requires IsFirstMatch(next, name, k)
    requires GetMinimumWages(current, next, forceGetNextYear, date).Success?
    ensures GetMinimumWage(Some(name), current, next, forceGetNextYear, date)
      == Success(Some(GetMinimumWages(current, next, forceGetNextYear, date).value[k]))
  {
    var all := GetMinimumWages(current, next, forceGetNextYear, date).value;
    SameNamesSameFirstMatch(next, all, name, k);
    assert IsFirstWithName(all, name, all[k]);
    FindIsFirstWithName(all, name, all[k]);
  }

  /** The bulk and single-prefecture paths agree: with unique names in "next",
      looking up each prefecture of "next" yields the record the bulk call puts
      at that prefecture's index. */
  lemma BulkAgreesWithLookup(current: Dataset, next: Dataset, forceGetNextYear: bool, date: Instant)
    requires UniqueNames(next)
    requires GetMinimumWages(current, next, forceGetNextYear, date).Success?
    ensures forall i :: 0 <= i < |next| ==>
      GetMinimumWage(Some(next[i].prefectureName), current, next, forceGetNextYear, date)
        == Success(Some(GetMinimumWages(current, next, forceGetNextYear, date).value[i]))
  {
    forall i | 0 <= i < |next|
      ensures GetMinimumWage(Some(next[i].prefectureName), current, next, forceGetNextYear, date)
        == Success(Some(GetMinimumWages(current, next, forceGetNextYear, date).value[i]))
    {
      assert IsFirstMatch(next, next[i].prefectureName, i);
      LookupIsFirstBulkMatch(current, next, forceGetNextYear, date, next[i].prefectureName, i);
    }
  }

  /** Before a prefecture's "next" start the lookup returns its "current"
      record (the first one of that name), provided the merge as a whole
      succeeds; `k` is the prefecture's first index in "next". */
  lemma LookupBeforeStart(current: Dataset, next: Dataset, date: Instant, name: PrefectureName, k: int)
    requires IsFirstMatch(next, name, k)
    requires date < next[k].effectiveStartDate
    requires CreateCurrentMinimumWages(current, next, date).Success?
    ensures Find(current, name).Some?
    ensures GetMinimumWage(Some(name), current, next, false, date) == Success(Find(current, name))
  {
    MergeAt(current, next, date, k);
    LookupIsFirstBulkMatch(current, next, false, date, name, k);
  }

  /** From a prefecture's "next" start onwards, boundary instant included, the
      lookup returns that "next" record, provided the merge as a whole
      succeeds; `k` is the prefecture's first index in "next". */
  lemma LookupFromStart(current: Dataset, next: Dataset, date: Instant, name: PrefectureName, k: int)
    requires IsFirstMatch(next, name, k)
    requires next[k].effectiveStartDate <= date
    requires CreateCurrentMinimumWages(current, next, date).Success?
    ensures GetMinimumWage(Some(name), current, next, false, date) == Success(Some(next[k]))
  {
    MergeAt(current, next, date, k);
    LookupIsFirstBulkMatch(current, next, false, date, name, k);
  }

  /** A name "next" does not carry is not an error: once the selected schedule
      is available, the lookup yields the empty sentinel. */
  lemma LookupUnknownNameIsSentinel(current: Dataset, next: Dataset, forceGetNextYear: bool, date: Instant, name: PrefectureName)
    requires !HasName(next, name)
    requires GetMinimumWages(current, next, forceGetNextYear, date).Success?
    ensures GetMinimumWage(Some(name), current, next, forceGetNextYear, date) == Success(None)
  {
  }
}
