/** What all users of a replicated partition share: drive colours, the reference drive and the write that
  read repair performs on one drive.
 */
module Replication {
  import opened KineticStore

  /** GREEN drives are up to date; YELLOW ones are written but not read; RED ones are unreachable. */
  datatype DriveStatus = Green | Yellow | Red

  /** The reference drive of reads and of read repair: the first GREEN one. */
  predicate IsFirstGreen(statuses: seq<DriveStatus>, g: nat) {
    && g < |statuses|
    && statuses[g].Green?
    && forall d :: 0 <= d < g ==> !statuses[d].Green?
  }

  ghost predicate HasGreen(statuses: seq<DriveStatus>) {
    exists g: nat :: IsFirstGreen(statuses, g)
  }

  ghost function FirstGreen(statuses: seq<DriveStatus>): (g: nat)
    requires HasGreen(statuses)
    ensures IsFirstGreen(statuses, g)
    ensures forall h: nat :: IsFirstGreen(statuses, h) ==> h == g
  {
    var g: nat :| IsFirstGreen(statuses, g);
    g
  }

  /** The write of read repair on one drive: remove, leave alone or overwrite by compare-and-set. */
  function RepairStatus<V>(reference: Slot<V>, seen: Slot<V>, current: Slot<V>): Status {
    if reference.Absent? then
      if seen.Absent? then NotFound else DeleteStatus(current, seen.Version(), RequireSameVersion)
    else if seen.Present? && seen.Version() == reference.Version() then Ok
    else PutStatus(current, seen.Version(), RequireSameVersion)
  }

  function RepairSlot<V>(reference: Slot<V>, seen: Slot<V>, current: Slot<V>): Slot<V> {
    if reference.Absent? then
      if seen.Absent? then current else DeleteSlot(current, seen.Version(), RequireSameVersion)
    else if seen.Present? && seen.Version() == reference.Version() then current
    else PutSlot(current, seen.Version(), RequireSameVersion, reference.record)
  }
}
