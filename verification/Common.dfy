/** What several modules share. */
module Common {
  const SMALLINT_MAX := 0x7FFF
  const SIZE_T_RANGE := 0x1_0000_0000_0000_0000

  const SQL_NULL_DATA := -1

  /** A value stored in a 16-bit signed integer. */
  function ToSmallInt(x: int): (n: int)
    ensures -0x8000 <= n < 0x8000 && (n - x) % 0x1_0000 == 0
  {
    (x + 0x8000) % 0x1_0000 - 0x8000
  }

  type Byte = x: int | 0 <= x < 0x100

  datatype Option<+T> = None | Some(value: T)

  function Min(a: int, b: int): int {
    if a < b then a else b
  }

  lemma Regroup<T>(a: seq<T>, b: seq<T>, c: seq<T>)
    ensures a + b + c == a + (b + c)
  {
  }
}
