/** Shared vocabulary of the firmware model: optional values, the ESP-IDF style
    status code, the 8-bit integer conversions the C code performs implicitly,
    and occurrence counting over sequences. */
module Common {

  /** A value that may be absent (a C pointer that may be NULL). */
  datatype Option<+T> = None | Some(value: T)

  /** `esp_err_t` reduced to the two values the modelled code distinguishes. */
  datatype Status = Ok | Fail

  /** A value that fits in `uint8_t`. */
  predicate IsByte(v: int) {
    0 <= v < 256
  }

  /** A value that fits in `int8_t`. */
  predicate IsInt8(v: int) {
    -128 <= v < 128
  }

  predicate AllBytes(s: seq<int>) {
    forall i :: 0 <= i < |s| ==> IsByte(s[i])
  }

  predicate AllInt8(s: seq<int>) {
    forall i :: 0 <= i < |s| ==> IsInt8(s[i])
  }

  /** The conversion `(int8_t)v` of a wider integer on a two's-complement
      target: the value is reduced modulo 256 into [-128, 127]. */
  function ToInt8(v: int): (r: int)
    ensures IsInt8(r)
    ensures (r - v) % 256 == 0
    ensures IsInt8(v) ==> r == v
  {
    (v + 128) % 256 - 128
  }

  /** The conversion `(uint8_t)v`: the value is reduced modulo 256. */
  function ToByte(v: int): (r: int)
    ensures IsByte(r)
    ensures (r - v) % 256 == 0
    ensures IsByte(v) ==> r == v
  {
    v % 256
  }

  /** Reading the bit pattern of one byte as `int8_t`, which is what a
      `memcpy` from a `uint8_t` buffer into an `int8_t` buffer does. */
  function AsInt8(b: int): (r: int)
    requires IsByte(b)
    ensures IsInt8(r)
    ensures ToByte(r) == b
  {
    if b < 128 then b else b - 256
  }

  /** Number of occurrences of `x` in `s`. */
  function Count<T(==)>(s: seq<T>, x: T): (n: nat)
    ensures n <= |s|
  {
    if |s| == 0 then 0
    else (if s[0] == x then 1 else 0) + Count(s[1..], x)
  }

  lemma {:induction false} CountAppend<T>(a: seq<T>, b: seq<T>, x: T)
    ensures Count(a + b, x) == Count(a, x) + Count(b, x)
  {
    if |a| == 0 {
      assert a + b == b;
    } else {
      assert (a + b)[1..] == a[1..] + b;
      CountAppend(a[1..], b, x);
    }
  }

  /** Counting over a sequence that starts with `e`. */
  lemma CountCons<T>(e: T, t: seq<T>, x: T)
    ensures Count([e] + t, x) == (if e == x then 1 else 0) + Count(t, x)
  {
    assert ([e] + t)[0] == e && ([e] + t)[1..] == t;
  }

  /** `x` occurs nowhere in `s` exactly when it is counted zero times. */
  lemma {:induction false} CountZero<T>(s: seq<T>, x: T)
    ensures Count(s, x) == 0 <==> x !in s
  {
    if |s| > 0 {
      CountZero(s[1..], x);
      assert s == [s[0]] + s[1..];
    }
  }
}
