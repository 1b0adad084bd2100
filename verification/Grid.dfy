/**
 Row-major indexing: cell `(y, x)` of a grid `w` cells wide is element `y * w + x`.
 */
module Grid {

  lemma InRange(y: nat, x: nat, w: nat, h: nat)
    requires y < h && x < w
    ensures 0 <= y * w + x < w * h
  {
    assert y * w + w == (y + 1) * w <= h * w;
  }

  lemma Order(y: nat, x: nat, y': nat, x': nat, w: nat)
    requires x < w && y < y'
    ensures y * w + x < y' * w + x'
  {
    assert y * w + w == (y + 1) * w <= y' * w;
  }

  lemma Injective(y: nat, x: nat, y': nat, x': nat, w: nat)
    requires x < w && x' < w
    ensures y * w + x == y' * w + x' ==> y == y' && x == x'
  {
    if y < y' {
      Order(y, x, y', x', w);
    } else if y' < y {
      Order(y', x', y, x, w);
    }
  }

  /** Every element of a `w` by `h` grid is a cell. */
  lemma Coordinates(i: nat, w: nat, h: nat)
    requires i < w * h
    ensures w > 0 && i / w < h && i % w < w && i == i / w * w + i % w
  {
    assert w > 0;
    if i / w >= h {
      Order(h, 0, i / w + 1, 0, w);
    }
  }
}
