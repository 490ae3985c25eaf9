/** A small optional-value datatype used for the source's `None` results and
    for operations that fail (an index error, an assertion) on some inputs. */
module Options {

  datatype Option<+T> = None | Some(value: T)
}
