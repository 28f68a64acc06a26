/** The values `parse_and_reconstruct_fields` builds. */
module FieldRecords {
  import opened RecordPattern

  /** The four coordinates, kept as the text the pattern captured. */
  datatype BoundingBox = BoundingBox(x: string, y: string, width: string, height: string)

  datatype FieldRecord = FieldRecord(fieldName: string, boundingBox: BoundingBox)

  /** A record found by the pattern scan, with the span of text it was read from. */
  datatype RecordMatch = RecordMatch(start: nat, end: nat, record: FieldRecord)

  /** The `{"form_fields": [...]}` object the source returns. */
  datatype Extraction = Extraction(formFields: seq<FieldRecord>)

  /** Python's `float` refused a captured coordinate: the `ValueError` it raises. */
  datatype ConversionError = ValueError(literal: string)

  /** What the pattern guarantees of a captured record. */
  predicate WellFormed(r: FieldRecord)
  {
    |r.fieldName| > 0 && AllIn(r.fieldName, NotQuote) &&
    |r.boundingBox.x| > 0 && AllIn(r.boundingBox.x, NumberChar) &&
    |r.boundingBox.y| > 0 && AllIn(r.boundingBox.y, NumberChar) &&
    |r.boundingBox.width| > 0 && AllIn(r.boundingBox.width, NumberChar) &&
    |r.boundingBox.height| > 0 && AllIn(r.boundingBox.height, NumberChar)
  }
}
