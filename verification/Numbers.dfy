// The lesser and the greater of two positions, and their difference.
module Numbers {
  function Max(a: nat, b: nat): nat {
    if a < b then b else a
  }

  function Min(a: nat, b: nat): nat {
    if a < b then a else b
  }

  // Zero when there is nothing left.
  function Less(a: nat, b: nat): nat {
    if a >= b then a - b else 0
  }
}
