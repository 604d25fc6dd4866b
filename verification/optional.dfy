/** Values the daemon may or may not obtain: an extension's event base, a parsed name, a written file. */
module Optional {

  datatype Option<T> = None | Some(value: T)
}
