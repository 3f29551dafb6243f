/**
 * An optional value. None stands for the NaN that numpy returns for the mean
 * or variance of an empty array.
 */
module Options {
  datatype Option<T> = None | Some(value: T)
}
