/** The wire encodings a process can be configured with, and the outcome of choosing one. */
module Protocol {

  /** TBinaryProtocol, TCompactProtocol, TJSONProtocol and TSimpleJSONProtocol. */
  datatype Codec = Binary | Compact | Json | SimpleJson

  /** The normalised name that selects each codec in the Java `switch`. */
  function CodecName(c: Codec): string {
    match c
    case Binary => "binary"
    case Compact => "compact"
    case Json => "json"
    case SimpleJson => "simplejson"
  }

  /**
   * What protocol-name resolution yields: the normalised name the process
   * records and reports, and the codec it actually uses. The two can
   * disagree: an unknown name is reported as given while Binary is used.
   */
  datatype Selection = Selection(name: string, codec: Codec)
}
