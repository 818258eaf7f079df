/** How tall a red-black tree can be. */
module RBHeight {
  import opened RBShape
  import opened Words

  ghost function Height<T>(t: Tree<T>): nat {
    if t.Leaf? then 0 else 1 + if Height(t.left) >= Height(t.right) then Height(t.left) else Height(t.right)
  }

  lemma {:induction false} BlackHeightBounds<T>(t: Tree<T>, h: nat)
    requires Rb(t, h)
    ensures Height(t) <= 2 * h + if t.IsRed() then 1 else 0
    ensures Power(h) <= |Inorder(t)| + 1
  {
    if t.Node? {
      var k := if t.red then h else h - 1;
      BlackHeightBounds(t.left, k);
      BlackHeightBounds(t.right, k);
    }
  }

  /** The logarithm to the base 2, rounded down. */
  ghost function Log2(n: nat): nat
    requires n > 0
  {
    if n == 1 then 0 else 1 + Log2(n / 2)
  }

  lemma {:induction false} Log2Is(n: nat, k: nat)
    requires n > 0
    ensures Power(k) <= n <==> k <= Log2(n)
  {
    if k > 0 && n > 1 {
      Log2Is(n / 2, k - 1);
    }
  }

  /** A red-black tree of n nodes is at most 2 * log2(n + 1) high. */
  lemma HeightIsLogarithmic<T>(t: Tree<T>)
    requires RedBlack(t)
    ensures Height(t) <= 2 * Log2(|Inorder(t)| + 1)
  {
    BlackHeightBounds(t, BlackHeight(t));
    Log2Is(|Inorder(t)| + 1, BlackHeight(t));
  }
}
