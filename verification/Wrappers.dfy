module Wrappers {
  datatype Option<+T> = None | Some(value: T)
}

/** The guest's RAM. */
module Ram {
  const RAM_BASE := 0x8000_0000
  const RAM_SIZE := 0x2000_0000
}

module Division {
  lemma Unique(y: int, m: nat, q: int, r: int)
    requires m > 0 && y == q * m + r && 0 <= r < m
    ensures y / m == q && y % m == r
  {
    var p, s := y / m, y % m;
    assert y == p * m + s;
    if p < q { Ordered(p + 1, q, m); } else if q < p { Ordered(q + 1, p, m); }
  }

  lemma Ordered(a: int, b: int, m: nat)
    requires a <= b
    ensures a * m <= b * m
  {}
}
