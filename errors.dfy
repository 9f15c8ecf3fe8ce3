/** Failures of the Huffman coder: the Python exceptions the pipeline can raise. */
module Errors {

  datatype Error =
    | KeyError(symbol: char)   // compress_text meets a symbol that has no code
    | IndexError               // build_huffman_tree reads heap[0] of an empty heap
    | ValueError               // remove_padding parses an empty header with int(..., 2)

  datatype Result<T> = Success(value: T) | Failure(error: Error)

  datatype Option<T> = None | Some(value: T)
}
