/** LAS versions and the features each of them supports. */
module Versions {
  import opened Wrappers

  datatype Version = Version(major: u8, minor: u8) {

    /** The derived lexicographic order. */
    predicate AtMost(other: Version) {
      major < other.major || (major == other.major && minor <= other.minor)
    }

    predicate RequiresPointDataStartSignature() {
      this == Version(1, 0)
    }

    function HeaderSize(): u16 {
      if AtMost(Version(1, 2)) then 227
      else if this == Version(1, 3) then 235
      else 375
    }

    predicate Supports(feature: Feature) {
      major == 1 && minor in SupportingMinors(feature)
    }
  }

  datatype Feature =
    | FileSourceId
    | GpsStandardTime
    | Waveforms
    | SyntheticReturnNumbers
    | LargeFiles
    | Evlrs

  function SupportingMinors(feature: Feature): set<int> {
    match feature
    case FileSourceId => {1, 2, 3, 4}
    case GpsStandardTime => {2, 3, 4}
    case Waveforms => {3, 4}
    case SyntheticReturnNumbers => {3, 4}
    case LargeFiles => {4}
    case Evlrs => {4}
  }
}
