// Result codes and optional values shared by the modules.
module Common {
  // The status codes the modelled functions return.
  datatype Status = OK | INVALID_ARGUMENT | OUT_OF_MEMORY | OVERFLOW

  // A pointer that may be NULL, or a lookup that may miss.
  datatype Option<+T> = None | Some(value: T)
}
