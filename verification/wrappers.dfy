/** Optional values: the result of `processa_entrada`, and of `parse`, which
    stands for `float()` and gives `None` where `float()` raises. */
module Wrappers {

  datatype Option<+T> = None | Some(value: T)
}
