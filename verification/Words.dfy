/** 32-bit machine words, and the stock option type. */
module Words {
  const WORD := 0x1_0000_0000

  type Word = x: int | 0 <= x < 0x1_0000_0000

  datatype Option<T> = None | Some(value: T)
}
