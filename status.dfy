/** The status codes of `enum status` (src/tsvio.h), in declaration order. */
module TsvIo {

  datatype Status =
    | OK
    | EmptyFile
    | WriteError
    | IncompleteLastLine
    | NoLabelError
    | LabelNotFound
    | NoIndex
    | LabelTooLong
    | IndexTooLong
    | NonNumericInIndex
    | SeekFailed
}
