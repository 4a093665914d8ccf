/** A minimal optional-value type, standing in for the source's nullable lookups. */
module Options {

  datatype Option<+T> = None | Some(value: T)

}
