/** Point formats: their codes, record lengths and the versions that allow them. */
module Formats {
  import opened Wrappers
  import opened Versions

  const TIME_FORMATS := {1, 3, 4, 5, 6, 7, 8, 9, 10}
  const COLOR_FORMATS := {2, 3, 5, 7, 8, 10}
  const WAVEFORM_FORMATS := {4, 5, 9, 10}
  const NIR_FORMATS := {8, 10}

  datatype Format = Format(
    hasGpsTime: bool,
    hasColor: bool,
    isExtended: bool,
    hasWaveform: bool,
    hasNir: bool,
    extraBytes: u16,
    isCompressed: bool)
  {
    /** The record length before it is narrowed to 16 bits. */
    function Len(): nat {
      (if isExtended then 22 else 20) + extraBytes
      + (if hasGpsTime then 8 else 0)
      + (if hasColor then 6 else 0)
      + (if hasNir then 2 else 0)
      + (if hasWaveform then 29 else 0)
    }

    /** The 16-bit additions of the record length do not overflow. */
    predicate LenFits() {
      Len() <= U16_MAX
    }

    function ToU8(): Result<u8> {
      if isExtended then
        if !hasGpsTime then Err(InvalidPointFormat)
        else if hasColor then
          if hasNir then Ok(if hasWaveform then 10 else 8)
          else if hasWaveform then Err(InvalidPointFormat)
          else Ok(7)
        else if hasNir then Err(InvalidPointFormat)
        else Ok(if hasWaveform then 9 else 6)
      else if hasNir then Err(InvalidPointFormat)
      else if hasWaveform then
        if hasGpsTime then Ok(if hasColor then 5 else 4) else Err(InvalidPointFormat)
      else
        Ok((if hasGpsTime then 1 else 0) + (if hasColor then 2 else 0))
    }

    function ToWritableU8(): Result<u8> {
      var id :- ToU8();
      Ok(if isCompressed then 0x80 + id else id)
    }
  }

  function NewFormat(n: u8): Result<Format> {
    var isCompressed := n >= 0x80;
    if n > 10 && !isCompressed then Err(InvalidPointFormatNumber(n))
    else
      var id := n % 0x40;
      Ok(Format(id in TIME_FORMATS, id in COLOR_FORMATS, id >= 6, id in WAVEFORM_FORMATS,
                id in NIR_FORMATS, 0, isCompressed))
  }

  predicate SupportsPointFormat(v: Version, f: Format) {
    v.major == 1 &&
    match v.minor
    case 0 => !(f.hasColor || f.isExtended || f.hasWaveform || f.hasNir)
    case 1 => !(f.hasColor || f.isExtended || f.hasWaveform || f.hasNir)
    case 2 => !(f.isExtended || f.hasWaveform || f.hasNir)
    case 3 => !(f.isExtended || f.hasNir)
    case 4 => true
    case _ => false
  }

  /** The code table and the decision tree of `to_u8` are inverse to each other: a byte is the code of the format
      it stands for exactly when it is 0 to 10, with or without the compression bit. */
  lemma FormatCodesAreInvertible(n: u8, f: Format)
    ensures NewFormat(n).Ok? && NewFormat(n).value.ToWritableU8() == Ok(n) <==> n <= 10 || 0x80 <= n <= 0x8A
    ensures f.ToWritableU8().Ok? ==> NewFormat(f.ToWritableU8().value) == Ok(f.(extraBytes := 0))
  {
  }
}
