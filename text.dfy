/** Byte strings and k-windows, shared by every component of the library. */
module Text {

  /** A `char` of a C++ `std::string`, used to index 256-entry tables. */
  type Byte = c: char | c as int < 256 witness 'A'

  type Str = seq<Byte>

  /** A (row, column) pair: an index into `a` and an index into `b`. */
  type Pos = (int, int)

  /** The window s[i, i+k) lies inside s. */
  predicate HasWindow(s: Str, i: int, k: nat)
  {
    0 <= i && i + k <= |s|
  }

  /** a[i, i+k) == b[j, j+k), both windows being inside their strings. */
  predicate SameWindow(a: Str, i: int, b: Str, j: int, k: nat)
  {
    HasWindow(a, i, k) && HasWindow(b, j, k) && a[i..i + k] == b[j..j + k]
  }

  /** The number of k-windows of s (|s| - k + 1, or 0 when s is shorter than k). */
  function WindowCount(s: Str, k: nat): (n: nat)
    ensures forall i :: 0 <= i < n <==> HasWindow(s, i, k)
  {
    if |s| + 1 >= k then |s| + 1 - k else 0
  }
}
