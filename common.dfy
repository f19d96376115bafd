/** Types shared by every module of the model: bytes, optional values and
    results that carry an error instead of raising it. */
module Common {

  /** An unsigned 8-bit value (C's uint8_t / Arduino's byte). */
  type byte = x: int | 0 <= x < 256

  /** An unsigned 16-bit value (AVR's unsigned int). */
  type uint16 = x: int | 0 <= x < 0x1_0000

  datatype Option<+T> = None | Some(value: T)

  datatype Result<+T, +E> = Success(value: T) | Failure(error: E) {
    predicate IsFailure() { Failure? }

    function PropagateFailure<U>(): Result<U, E>
      requires Failure?
    {
      Failure(error)
    }

    function Extract(): T
      requires Success?
    {
      value
    }
  }

  function Min(a: int, b: int): int
  {
    if a < b then a else b
  }

  /** Sequence concatenation regrouped; the solver does not find this on
      its own inside larger proofs. */
  lemma AppendAssoc<T>(a: seq<T>, b: seq<T>, c: seq<T>)
    ensures (a + b) + c == a + (b + c)
  {
  }

  /** How many bytes a C loop `for (i = 0; i < n; i++)` visits. */
  function Max0(n: int): nat
  {
    if n < 0 then 0 else n
  }

  /** Reinterprets an unsigned byte as C's int8_t. */
  function AsInt8(b: byte): int
  {
    if b < 128 then b else b - 256
  }
}
