/** Small shared vocabulary: an optional value, as the source's nullable
    references and `TryGetValue` lookups use it. */
module Base {

  datatype Option<+T> = None | Some(value: T)
}
