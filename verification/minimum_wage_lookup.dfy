/** The effective-date merge of the "current" and "next" wage schedules, the
    force-next shortcut, and the two public entry points: the whole schedule and
    one prefecture's record. The two schedules are parameters here; the library
    reads them from its bundled JSON files on every call. */
module MinimumWageLookup {
  import opened Wrappers
  import opened Wages

  /** The two ways a call can fail. */
  datatype Error =
    /** The single-prefecture lookup was called without a prefecture name. */
    | PrefectureNameMissing
    /** A not-yet-effective "next" record has no "current" record with its
        name; carries that name. */
    | DataInconsistency(prefectureName: PrefectureName)

  /** The "next" record `n` is in force at `date`: `date` is the same instant as
      its start or later, so the boundary instant counts as in force. */
  predicate IsEffective(n: MinimumWage, date: Instant) {
    n.effectiveStartDate <= date
  }

  /** `n` is not yet in force at `date` and "current" has nothing to fall back
      on for its prefecture: the merge cannot resolve it. */
  ghost predicate Unresolvable(current: Dataset, n: MinimumWage, date: Instant) {
    !IsEffective(n, date) && !HasName(current, n.prefectureName)
  }

  /** `w` is what the merge should yield for the "next" record `n`: `n` itself
      once it is in force, else the first "current" record with its name. */
  ghost predicate ResolvedAs(current: Dataset, n: MinimumWage, date: Instant, w: MinimumWage) {
    if IsEffective(n, date) then w == n
    else IsFirstWithName(current, n.prefectureName, w)
  }

  /** `i` is the first index of `next` that the merge cannot resolve. */
  ghost predicate IsFirstUnresolvable(current: Dataset, next: Dataset, date: Instant, i: int) {
    && 0 <= i < |next|
    && Unresolvable(current, next[i], date)
    && forall j :: 0 <= j < i ==> !Unresolvable(current, next[j], date)
  }

  /** `merged` is a successful merge of `next` against `current` at `date`:
      one record per "next" record, in order, each resolved as above. */
  ghost predicate IsMergeOf(current: Dataset, next: Dataset, date: Instant, merged: Dataset) {
    && |merged| == |next|
    && forall i :: 0 <= i < |next| ==> ResolvedAs(current, next[i], date, merged[i])
  }

  /** The per-record step of the merge: keep `n` once it is in force, otherwise
      fall back to the first "current" record of the same prefecture, failing
      when there is none. */
  function ResolveRecord(current: Dataset, n: MinimumWage, date: Instant): (r: Result<MinimumWage, Error>)
    ensures r.Failure? <==> Unresolvable(current, n, date)
    ensures r.Failure? ==> r.error == DataInconsistency(n.prefectureName)
    ensures r.Success? ==> ResolvedAs(current, n, date, r.value)
    ensures r.Success? ==> r.value.prefectureName == n.prefectureName
  {
    if IsEffective(n, date) then Success(n)
    else
      match Find(current, n.prefectureName)
      case None => Failure(DataInconsistency(n.prefectureName))
      case Some(c) => Success(c)
  }

  /** The merge by effective date: every "next" record in order, replaced by its
      "current" counterpart while it is not yet in force. Stops at the first
      record that cannot be resolved, as the thrown error does. */
  function CreateCurrentMinimumWages(current: Dataset, next: Dataset, date: Instant): (r: Result<Dataset, Error>)
    ensures r.Success? <==> forall i :: 0 <= i < |next| ==> !Unresolvable(current, next[i], date)
    ensures r.Success? ==> IsMergeOf(current, next, date, r.value)
    ensures r.Success? ==> forall i :: 0 <= i < |next| ==> r.value[i].prefectureName == next[i].prefectureName
    ensures r.Failure? ==> exists i :: IsFirstUnresolvable(current, next, date, i)
                                       && r.error == DataInconsistency(next[i].prefectureName)
    decreases |next|
  {
    if |next| == 0 then Success([])
    else
      match ResolveRecord(current, next[0], date)
      case Failure(e) =>
        assert IsFirstUnresolvable(current, next, date, 0);
        Failure(e)
      case Success(w) =>
        var rest := CreateCurrentMinimumWages(current, next[1..], date);
        assert forall i :: 1 <= i < |next| ==> next[1..][i - 1] == next[i];
        match rest
        case Failure(e) =>
          assert exists i :: IsFirstUnresolvable(current, next, date, i) && e == DataInconsistency(next[i].prefectureName) by {
            var k :| IsFirstUnresolvable(current, next[1..], date, k) && e == DataInconsistency(next[1..][k].prefectureName);
            assert IsFirstUnresolvable(current, next, date, k + 1);
          }
          Failure(e)
        case Success(ws) =>
          var merged := [w] + ws;
          assert forall i :: 1 <= i < |next| ==> merged[i] == ws[i - 1];
          Success(merged)
  }

  /** The whole-schedule entry point. Force mode returns the "next" schedule
      verbatim, with no date comparison and without consulting "current". */
  function GetMinimumWages(current: Dataset, next: Dataset, forceGetNextYear: bool, date: Instant): (r: Result<Dataset, Error>)
    ensures forceGetNextYear ==> r == Success(next)
    ensures !forceGetNextYear ==>
      (r.Success? <==> forall i :: 0 <= i < |next| ==> !Unresolvable(current, next[i], date))
    ensures !forceGetNextYear && r.Success? ==> IsMergeOf(current, next, date, r.value)
    ensures r.Success? ==>
      && |r.value| == |next|
      && forall i :: 0 <= i < |next| ==> r.value[i].prefectureName == next[i].prefectureName
  {
    if forceGetNextYear then Success(next)
    else CreateCurrentMinimumWages(current, next, date)
  }

  /** The single-prefecture entry point. An absent name fails before any
      schedule is consulted; otherwise the first record of the selected schedule
      with that name, or `None` (the empty sentinel) when there is none. */
  function GetMinimumWage(prefectureName: Option<PrefectureName>, current: Dataset, next: Dataset,
                          forceGetNextYear: bool, date: Instant): (r: Result<Option<MinimumWage>, Error>)
    ensures prefectureName.None? ==> r == Failure(PrefectureNameMissing)
    ensures prefectureName.Some? ==>
      (r.Failure? <==> GetMinimumWages(current, next, forceGetNextYear, date).Failure?)
    ensures prefectureName.Some? && r.Failure? ==>
      r.error == GetMinimumWages(current, next, forceGetNextYear, date).error
    ensures r.Success? ==>
      && prefectureName.Some?
      && (r.value.None? <==> !HasName(GetMinimumWages(current, next, forceGetNextYear, date).value, prefectureName.value))
    ensures r.Success? && r.value.Some? ==>
      && r.value.value.prefectureName == prefectureName.value
      && IsFirstWithName(GetMinimumWages(current, next, forceGetNextYear, date).value, prefectureName.value, r.value.value)
  {
    match prefectureName
    case None => Failure(PrefectureNameMissing)
    case Some(name) =>
      var minimumWages := if forceGetNextYear then Success(next)
                          else CreateCurrentMinimumWages(current, next, date);
      match minimumWages
      case Failure(e) => Failure(e)
      case Success(ws) =>
        var found := Find(ws, name);
        assert found.Some? ==> found.value.prefectureName == name by {
          if found.Some? {
            var i :| IsFirstMatch(ws, name, i) && ws[i] == found.value;
          }
        }
        Success(found)
  }
}
