module Optional {
  datatype Option<T> = None | Some(value: T)

  /** A JavaScript string value that `||` and `if` treat as true: present
      and not empty. */
  predicate Truthy(s: Option<string>) {
    s.Some? && s.value != []
  }
}
