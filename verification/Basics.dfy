module Options {
  datatype Option<+T> = None | Some(value: T)
}

module Numbers {
  type Byte = x: int | 0 <= x < 256

  function Min(a: int, b: int): int { if a < b then a else b }
}
