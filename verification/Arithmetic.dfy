// Products, quotients and remainders, where the verifier wants help.

module Arithmetic {
  lemma AtLeastWidth(k: nat, width: nat)
    requires k > 0
    ensures k * width >= width
  {
  }

  lemma MulMonotone(a: nat, b: nat, c: nat)
    requires a <= b
    ensures a * c <= b * c
  {
  }

  // A place in a matrix stored row by row has one column and one row.
  lemma SamePlace(width: nat, x: nat, y: nat, x': nat, y': nat)
    requires x < width && x' < width && y * width + x == y' * width + x'
    ensures x == x' && y == y'
  {
    assert (y - y') * width == y * width - y' * width == x' - x;
    if y < y' {
      AtLeastWidth(y' - y, width);
    } else if y' < y {
      AtLeastWidth(y - y', width);
    }
  }

  lemma DivMod(width: nat, x: nat, y: nat)
    requires x < width
    ensures (y * width + x) / width == y && (y * width + x) % width == x
  {
    var k := y * width + x;
    assert k == k / width * width + k % width;
    SamePlace(width, x, y, k % width, k / width);
  }

  lemma MultipleMod(k: nat, width: nat)
    requires width > 0
    ensures k * width % width == 0
  {
    DivMod(width, 0, k);
  }

  // A place in a row before the last one lies inside the rows.
  lemma PlaceInside(width: nat, height: nat, x: nat, y: nat)
    requires x < width && y < height
    ensures y * width + x < height * width
  {
    MulMonotone(y + 1, height, width);
    assert (y + 1) * width == y * width + width;
  }
}
