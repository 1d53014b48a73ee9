/** Types shared by the models: the C `unsigned char` and a result that may be
    missing (a NULL pointer or a failure return). */
module Common {
  type byte = x: int | 0 <= x < 256

  datatype Option<+T> = None | Some(value: T)
}
