/** A Java method that throws is modelled as returning None; a normal return v as Some(v). */
module Options {
  datatype Option<+T> = None | Some(value: T)
}
