/** One key of a Kinetic drive: a versioned slot with test-and-set writes.

  A write in REQUIRE_SAME_VERSION mode succeeds only when the version it names is the version the
  drive holds; an absent key counts as version "". IGNORE_VERSION writes always succeed.
 */
module KineticStore {

  type Version = string

  datatype Status = Ok | VersionMismatch | NotFound | Unreachable

  datatype WriteMode = RequireSameVersion | IgnoreVersion

  datatype Record<V> = Record(version: Version, value: V)

  datatype Slot<V> = Absent | Present(record: Record<V>) {
    function Version(): Version {
      if Absent? then "" else record.version
    }
  }

  predicate WriteAllowed<V>(s: Slot<V>, expected: Version, mode: WriteMode) {
    mode.IgnoreVersion? || s.Version() == expected
  }

  function PutStatus<V>(s: Slot<V>, expected: Version, mode: WriteMode): Status {
    if WriteAllowed(s, expected, mode) then Ok else VersionMismatch
  }

  function PutSlot<V>(s: Slot<V>, expected: Version, mode: WriteMode, r: Record<V>): Slot<V> {
    if WriteAllowed(s, expected, mode) then Present(r) else s
  }

  function DeleteStatus<V>(s: Slot<V>, expected: Version, mode: WriteMode): Status {
    if s.Absent? then NotFound else if WriteAllowed(s, expected, mode) then Ok else VersionMismatch
  }

  function DeleteSlot<V>(s: Slot<V>, expected: Version, mode: WriteMode): Slot<V> {
    if s.Present? && WriteAllowed(s, expected, mode) then Absent else s
  }
}
