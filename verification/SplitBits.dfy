/**
 * The split flags packed eight to a byte.
 */
module SplitBits {

  function Shift(i: nat): (s: bv8)
    ensures s < 8
  {
    match i % 8
    case 0 => 0
    case 1 => 1
    case 2 => 2
    case 3 => 3
    case 4 => 4
    case 5 => 5
    case 6 => 6
    case _ => 7
  }

  predicate BitIn(b: bv8, s: bv8)
    requires s < 8
  {
    (b >> s) & 1 == 1
  }

  function Toggle(b: bv8, s: bv8): bv8
    requires s < 8
  {
    b ^ (1 << s)
  }

  /** Flag i of the packed flags. */
  predicate Bit(bytes: seq<bv8>, i: nat)
    requires i / 8 < |bytes|
  {
    BitIn(bytes[i / 8], Shift(i))
  }

  lemma ToggleOneBit(b: bv8, s: bv8, t: bv8)
    requires s < 8 && t < 8
    ensures BitIn(Toggle(b, s), t) == (if s == t then !BitIn(b, t) else BitIn(b, t))
  {
  }

  lemma SameFlag(i: nat, j: nat)
    ensures i == j <==> i / 8 == j / 8 && Shift(i) == Shift(j)
  {
  }

  /** Flipping flag i flips that flag and no other. */
  lemma FlipOneFlag(bytes: seq<bv8>, i: nat, j: nat)
    requires i / 8 < |bytes| && j / 8 < |bytes|
    ensures var flipped := bytes[i / 8 := Toggle(bytes[i / 8], Shift(i))];
            Bit(flipped, j) == (if j == i then !Bit(bytes, j) else Bit(bytes, j))
  {
    SameFlag(i, j);
    if i / 8 == j / 8 {
      ToggleOneBit(bytes[i / 8], Shift(i), Shift(j));
    }
  }
}
