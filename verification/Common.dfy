/** Vocabulary shared by all parts of the driver model. */
module Common {

  /** An octet; the source's uint8_t, and its char seen as unsigned char. */
  type byte = x: int | 0 <= x < 256

  datatype Option<+T> = None | Some(value: T)

  function Min(a: nat, b: nat): (m: nat)
    ensures m <= a && m <= b && (m == a || m == b)
  {
    if a < b then a else b
  }

  /** The first n bytes of s, or all of s when it is shorter. */
  function Take<T>(s: seq<T>, n: nat): (r: seq<T>)
    ensures r <= s && (r == s || |r| == n)
    ensures |r| <= n
  {
    s[..Min(|s|, n)]
  }
}
