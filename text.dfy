/**
 Fixed-width column padding, as done by Python's format mini-language with
 the `<` (left-justify) and `>` (right-justify) alignments: the text is
 padded with spaces up to the width and never truncated.
 */
module Text {

  /** `n` space characters. */
  function Spaces(n: nat): (r: string)
    ensures |r| == n
    ensures forall k :: 0 <= k < n ==> r[k] == ' '
  {
    if n == 0 then "" else Spaces(n - 1) + " "
  }

  function Max(a: int, b: int): int {
    if a < b then b else a
  }

  /** `f"{s:<{width}}"`: `s` followed by spaces up to `width` characters. */
  function LeftJustify(s: string, width: nat): (r: string)
    ensures |r| == Max(|s|, width)
    ensures r[..|s|] == s
    ensures forall k :: |s| <= k < |r| ==> r[k] == ' '
  {
    if |s| >= width then s else s + Spaces(width - |s|)
  }

  /** `f"{s:>{width}}"`: spaces up to `width` characters, then `s`. */
  function RightJustify(s: string, width: nat): (r: string)
    ensures |r| == Max(|s|, width)
    ensures r[|r| - |s|..] == s
    ensures forall k :: 0 <= k < |r| - |s| ==> r[k] == ' '
  {
    if |s| >= width then s else Spaces(width - |s|) + s
  }

  /** A slice inside the left operand of a concatenation. */
  lemma ConcatLeft(x: string, y: string, i: nat, j: nat)
    requires i <= j <= |x|
    ensures (x + y)[i..j] == x[i..j]
  {}

  /** A slice inside the right operand of a concatenation. */
  lemma ConcatRight(x: string, y: string, i: nat, j: nat)
    requires |x| <= i <= j <= |x| + |y|
    ensures (x + y)[i..j] == y[i - |x|..j - |x|]
  {}
}
