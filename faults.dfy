/** The exceptions the pipeline can raise on bad input, as values. */
module Faults {

  datatype Fault =
      /** An `IndexError` while slicing the fields of line `index` (0-based) of the topology text. */
      MalformedLine(index: nat, text: string)
      /** A `KeyError`: a device GUID listed in the topology that the GUID table does not hold. */
    | UnknownGuid(guid: string)
}
