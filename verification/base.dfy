/** Vocabulary shared by every module: row identifiers and optional values. */
module Base {

  /** An AUTO_INCREMENT primary key. */
  type Id = nat

  /** A value that may be absent: an undefined request field, a missing row. */
  datatype Option<+T> = None | Some(value: T)
}
