/** Small shared vocabulary: Rust's `Option`, the fixed-width integer types the
    programs use, and element-wise mapping of sequences. */
module Base {

  /** Rust's `Option<T>`. */
  datatype Option<T> = None | Some(value: T)

  /** Applies `f` under `Some`, leaves `None` alone (Rust's `Option::map`). */
  function MapOption<T, U>(f: T -> U, o: Option<T>): (r: Option<U>)
    ensures r.None? <==> o.None?
    ensures o.Some? ==> r.value == f(o.value)
  {
    match o
    case None => None
    case Some(v) => Some(f(v))
  }

  const I32_MIN: int := -0x8000_0000
  const I32_MAX: int := 0x7fff_ffff

  /** Rust's `i32`. */
  type int32 = x: int | I32_MIN <= x <= I32_MAX

  /** Rust's `u8`. */
  type uint8 = x: int | 0 <= x < 0x100

  /** `f` applied to every element, order kept. */
  function MapSeq<A, B>(f: A -> B, s: seq<A>): (r: seq<B>)
    ensures |r| == |s|
    ensures forall i :: 0 <= i < |s| ==> r[i] == f(s[i])
  {
    seq(|s|, i requires 0 <= i < |s| => f(s[i]))
  }
}
