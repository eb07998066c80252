/**
 A Go `uint64`, as the set of its one-bits, with the operators the crontab masks are built from.
 Bits that are shifted past position 63 are lost.
 */
module Words {
  type Position = i: nat | i < 64

  type Word = set<Position>

  const ZERO: Word := {}
  const ONE: Word := {0}
  const MAX_UINT64: Word := set i: Position | 0 <= i < 64

  /** `1 << 63`, the mark of a field that was written with a star */
  const STAR_BIT: Word := {63}

  function Or(a: Word, b: Word): Word { a + b }

  function And(a: Word, b: Word): Word { a * b }

  function Not(a: Word): Word { MAX_UINT64 - a }

  function Shl(a: Word, k: nat): Word {
    set i | i in a && i + k < 64 :: i + k
  }

  /** The test `1<<i & mask != 0` */
  predicate Test(mask: Word, i: nat) { And(Shl(ONE, i), mask) != ZERO }

  /** The test `mask & starBit > 0` */
  predicate HasStar(mask: Word) { And(mask, STAR_BIT) != ZERO }

  lemma ShlOne(i: nat)
    ensures Shl(ONE, i) == if i < 64 then {i} else {}
  {}

  lemma TestIsMember(mask: Word, i: nat)
    ensures Test(mask, i) <==> i < 64 && i in mask
  {
    ShlOne(i);
    if i < 64 && i in mask {
      assert i in And(Shl(ONE, i), mask);
    }
  }

  lemma HasStarIsMember(mask: Word)
    ensures HasStar(mask) <==> 63 in mask
  {
    if 63 in mask {
      assert 63 in And(mask, STAR_BIT);
    }
  }
}
