/**
 * src/time.py: nearest-entry lookups in the built-in stellar table. The table itself
 * (src.timedata) is not part of this model and is taken as a parameter; the lookups work on
 * values that are already base-10 logarithms, so the `np.log10` of the input and the
 * `pow(10, ...)` of the output are left to the caller.
 */
module Time {
  import opened Common

  /**
   * Row-aligned columns of the stellar table: log10 initial mass [Msun], log10 lifetime [yr]
   * and log10 remnant mass [Msun].
   */
  datatype TimeTable = TimeTable(mini: seq<real>, tsn: seq<real>, mfin: seq<real>)

  predicate WellFormed(table: TimeTable) {
    |table.mini| > 0 && |table.tsn| == |table.mini| && |table.mfin| == |table.mini|
  }

  /** `FindClosestInList`: the index of the entry nearest to `val`, the earliest one on ties. */
  method FindClosestInList(val: real, list: seq<real>) returns (index: nat)
    requires |list| > 0
    ensures IsFirstClosest(list, val, index)
  {
    var diff := Abs(val - list[0]);
    index := 0;
    for n := 1 to |list|
      invariant index < n
      invariant diff == Abs(val - list[index])
      invariant forall i :: 0 <= i < n ==> diff <= Abs(val - list[i])
      invariant forall i :: 0 <= i < index ==> diff < Abs(val - list[i])
    {
      var newDiff := Abs(val - list[n]);
      if newDiff < diff {
        index := n;
        diff := newDiff;
      }
    }
  }

  /**
   * The row choice shared by `MassToTime` and `MassToMfin`: scan for the first entry above
   * `logmass`, then take it or its predecessor, whichever is nearer (the predecessor on a tie);
   * the last row when no entry lies above.
   */
  method NearerRowAscending(logmass: real, mini: seq<real>) returns (row: nat)
    requires |mini| > 0
    ensures row < |mini|
    ensures logmass < mini[0] ==> row == 0
    ensures forall n :: 0 <= n < |mini| && logmass < mini[n] && (forall i :: 0 <= i < n ==> mini[i] <= logmass) ==>
      row == (if n == 0 || logmass - mini[n - 1] > mini[n] - logmass then n else n - 1)
    ensures (forall i :: 0 <= i < |mini| ==> mini[i] <= logmass) ==> row == |mini| - 1
    ensures StrictlyIncreasing(mini) ==> IsFirstClosest(mini, logmass, row)
  {
    for n := 0 to |mini|
      invariant forall i :: 0 <= i < n ==> mini[i] <= logmass
    {
      if logmass < mini[n] {
        if n == 0 || logmass - mini[n - 1] > mini[n] - logmass {
          row := n;
        } else {
          row := n - 1;
        }
        if StrictlyIncreasing(mini) {
          if n == 0 {
            FirstClosestBelow(mini, logmass);
          } else {
            FirstClosestInBracket(mini, logmass, n - 1);
          }
        }
        return;
      }
    }
    row := |mini| - 1;
    if StrictlyIncreasing(mini) {
      FirstClosestAbove(mini, logmass);
    }
  }

  /** `MassToTime` on logarithms: log10 of the lifetime in Myr of a star of log10 mass `logmass`. */
  method MassToTime(logmass: real, table: TimeTable) returns (logMyr: real)
    requires WellFormed(table)
    ensures exists row :: (0 <= row < |table.mini| && logMyr == table.tsn[row] - 6.0 &&
      (StrictlyIncreasing(table.mini) ==> IsFirstClosest(table.mini, logmass, row)))
    ensures logmass < table.mini[0] ==> logMyr == table.tsn[0] - 6.0
    ensures (forall i :: 0 <= i < |table.mini| ==> table.mini[i] <= logmass) ==>
      logMyr == table.tsn[|table.tsn| - 1] - 6.0
  {
    var row := NearerRowAscending(logmass, table.mini);
    logMyr := table.tsn[row] - 6.0;
  }

  /** `MassToMfin` on logarithms: log10 of the remnant mass of a star of log10 mass `logmass`. */
  method MassToMfin(logmass: real, table: TimeTable) returns (logMfin: real)
    requires WellFormed(table)
    ensures exists row :: (0 <= row < |table.mini| && logMfin == table.mfin[row] &&
      (StrictlyIncreasing(table.mini) ==> IsFirstClosest(table.mini, logmass, row)))
    ensures logmass < table.mini[0] ==> logMfin == table.mfin[0]
    ensures (forall i :: 0 <= i < |table.mini| ==> table.mini[i] <= logmass) ==>
      logMfin == table.mfin[|table.mfin| - 1]
  {
    var row := NearerRowAscending(logmass, table.mini);
    logMfin := table.mfin[row];
  }

  /**
   * In a strictly decreasing sequence, the entry nearest to a value lying in [s[j+1], s[j]]
   * is s[j+1] when that is strictly nearer and s[j] otherwise.
   */
  lemma {:induction false} FirstClosestInBracketDecreasing(s: seq<real>, val: real, j: int)
    requires StrictlyDecreasing(s)
    requires 0 <= j < |s| - 1 && s[j + 1] <= val <= s[j]
    ensures IsFirstClosest(s, val, if val - s[j + 1] < s[j] - val then j + 1 else j)
  {
    forall i | 0 <= i < |s|
      ensures i <= j ==> Abs(val - s[i]) >= s[j] - val
      ensures i > j ==> Abs(val - s[i]) >= val - s[j + 1]
      ensures i < j ==> Abs(val - s[i]) > s[j] - val
    {
      if i < j { assert s[i] > s[j]; }
      if i > j + 1 { assert s[j + 1] > s[i]; }
    }
  }

  /**
   * The row choice of `TimeToMass` over the lifetime column, which falls with mass: the first
   * entry below `logtime`, or its predecessor when that is at least as near; the last row when
   * no entry lies below.
   */
  method NearerRowDescending(logtime: real, tsn: seq<real>) returns (row: nat)
    requires |tsn| > 0
    ensures row < |tsn|
    ensures logtime > tsn[0] ==> row == 0
    ensures forall n :: 0 <= n < |tsn| && logtime > tsn[n] && (forall i :: 0 <= i < n ==> logtime <= tsn[i]) ==>
      row == (if n == 0 || logtime - tsn[n] < tsn[n - 1] - logtime then n else n - 1)
    ensures (forall i :: 0 <= i < |tsn| ==> logtime <= tsn[i]) ==> row == |tsn| - 1
    ensures StrictlyDecreasing(tsn) ==> IsFirstClosest(tsn, logtime, row)
  {
    for n := 0 to |tsn|
      invariant forall i :: 0 <= i < n ==> logtime <= tsn[i]
    {
      if logtime > tsn[n] {
        if n == 0 || logtime - tsn[n] < tsn[n - 1] - logtime {
          row := n;
        } else {
          row := n - 1;
        }
        if StrictlyDecreasing(tsn) {
          if n == 0 {
            FirstClosestAboveDecreasing(tsn, logtime);
          } else {
            FirstClosestInBracketDecreasing(tsn, logtime, n - 1);
          }
        }
        return;
      }
    }
    row := |tsn| - 1;
    if StrictlyDecreasing(tsn) {
      FirstClosestBelowDecreasing(tsn, logtime);
    }
  }

  /**
   * `TimeToMass` on logarithms: log10 of the mass of the star that dies at log10 age `logtime`
   * [yr] (the source adds the 6 to its Myr input before the scan).
   */
  method TimeToMass(logtime: real, table: TimeTable) returns (logMass: real)
    requires WellFormed(table)
    ensures exists row :: (0 <= row < |table.tsn| && logMass == table.mini[row] &&
      (StrictlyDecreasing(table.tsn) ==> IsFirstClosest(table.tsn, logtime, row)))
    ensures logtime > table.tsn[0] ==> logMass == table.mini[0]
    ensures (forall i :: 0 <= i < |table.tsn| ==> logtime <= table.tsn[i]) ==>
      logMass == table.mini[|table.mini| - 1]
  {
    var row := NearerRowDescending(logtime, table.tsn);
    logMass := table.mini[row];
  }
}
