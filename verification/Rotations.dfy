/** Rotation of a word of 64 bits, and that it is a permutation of its bits. What is said of the shifts is
    proved for a few amounts at a time, which keeps each proof small. */
module Rotations {

  /** Turned left by an amount that is not zero: what leaves at the top comes in at the foot. */
  function Turned(value: bv64, n: bv64): bv64
    requires 0 < n < 64
  {
    (value << n) | (value >> (64 - n))
  }

  function TurnedBack(value: bv64, n: bv64): bv64
    requires 0 < n < 64
  {
    (value << (64 - n)) | (value >> n)
  }

  /** Rotation left by the low six bits of `turn`. */
  function Rotate(value: bv64, turn: bv64): bv64 {
    if turn & 63 == 0 then value else Turned(value, turn & 63)
  }

  /** The bit of a word at a place, the lowest at zero. */
  function Bit(x: bv64, i: bv64): bv64
    requires i < 64
  {
    (x >> i) & 1
  }

  /** The place so many after another, going round. */
  function Round(i: bv64, n: bv64): (k: bv64)
    requires i < 64 && n < 64
    ensures k < 64
  {
    if i + n < 64 then i + n else i + n - 64
  }

  // ------------------------------------------------------------------ turning back

  lemma BackFrom1(v: bv64, n: bv64)
    requires 1 <= n < 8
    ensures (((v << n) | (v >> (64 - n))) << (64 - n)) | (((v << n) | (v >> (64 - n))) >> n) == v
  {
  }

  lemma BackFrom8(v: bv64, n: bv64)
    requires 8 <= n < 16
    ensures (((v << n) | (v >> (64 - n))) << (64 - n)) | (((v << n) | (v >> (64 - n))) >> n) == v
  {
  }

  lemma BackFrom16(v: bv64, n: bv64)
    requires 16 <= n < 24
    ensures (((v << n) | (v >> (64 - n))) << (64 - n)) | (((v << n) | (v >> (64 - n))) >> n) == v
  {
  }

  lemma BackFrom24(v: bv64, n: bv64)
    requires 24 <= n < 32
    ensures (((v << n) | (v >> (64 - n))) << (64 - n)) | (((v << n) | (v >> (64 - n))) >> n) == v
  {
  }

  lemma BackFrom32(v: bv64, n: bv64)
    requires 32 <= n < 40
    ensures (((v << n) | (v >> (64 - n))) << (64 - n)) | (((v << n) | (v >> (64 - n))) >> n) == v
  {
  }

  lemma BackFrom40(v: bv64, n: bv64)
    requires 40 <= n < 48
    ensures (((v << n) | (v >> (64 - n))) << (64 - n)) | (((v << n) | (v >> (64 - n))) >> n) == v
  {
  }

  lemma BackFrom48(v: bv64, n: bv64)
    requires 48 <= n < 56
    ensures (((v << n) | (v >> (64 - n))) << (64 - n)) | (((v << n) | (v >> (64 - n))) >> n) == v
  {
  }

  lemma BackFrom56(v: bv64, n: bv64)
    requires 56 <= n < 64
    ensures (((v << n) | (v >> (64 - n))) << (64 - n)) | (((v << n) | (v >> (64 - n))) >> n) == v
  {
  }

  lemma Back(v: bv64, n: bv64)
    requires 0 < n < 64
    ensures (((v << n) | (v >> (64 - n))) << (64 - n)) | (((v << n) | (v >> (64 - n))) >> n) == v
  {
    if n < 8 {
      BackFrom1(v, n);
    } else if n < 16 {
      BackFrom8(v, n);
    } else if n < 24 {
      BackFrom16(v, n);
    } else if n < 32 {
      BackFrom24(v, n);
    } else if n < 40 {
      BackFrom32(v, n);
    } else if n < 48 {
      BackFrom40(v, n);
    } else if n < 56 {
      BackFrom48(v, n);
    } else {
      BackFrom56(v, n);
    }
  }

  lemma TurnedIs(value: bv64, n: bv64)
    requires 0 < n < 64
    ensures Turned(value, n) == (value << n) | (value >> (64 - n))
  {
  }

  lemma ShiftsTurnedBack(value: bv64, n: bv64)
    requires 0 < n < 64
    ensures TurnedBack((value << n) | (value >> (64 - n)), n) == value
  {
    Back(value, n);
  }

  lemma TurnedAndBack(value: bv64, n: bv64)
    requires 0 < n < 64
    ensures TurnedBack(Turned(value, n), n) == value
  {
    TurnedIs(value, n);
    ShiftsTurnedBack(value, n);
    hide Turned, TurnedBack;
  }

  /** Words turned alike are the same exactly where they were before. */
  lemma RotateKeepsApart(a: bv64, b: bv64, turn: bv64)
    ensures Rotate(a, turn) == Rotate(b, turn) <==> a == b
  {
    hide Turned, TurnedBack;
    if turn & 63 != 0 {
      TurnedAndBack(a, turn & 63);
      TurnedAndBack(b, turn & 63);
    }
  }

  // ------------------------------------------------------------------- bit by bit

  lemma UpFrom1(v: bv64, n: bv64, i: bv64)
    requires 1 <= n < 8 && i + n < 64 && i < 64
    ensures (((v << n) | (v >> (64 - n))) >> (i + n)) & 1 == (v >> i) & 1
  {
  }

  lemma UpFrom8(v: bv64, n: bv64, i: bv64)
    requires 8 <= n < 16 && i + n < 64 && i < 64
    ensures (((v << n) | (v >> (64 - n))) >> (i + n)) & 1 == (v >> i) & 1
  {
  }

  lemma UpFrom16(v: bv64, n: bv64, i: bv64)
    requires 16 <= n < 32 && i + n < 64 && i < 64
    ensures (((v << n) | (v >> (64 - n))) >> (i + n)) & 1 == (v >> i) & 1
  {
  }

  lemma UpFrom32(v: bv64, n: bv64, i: bv64)
    requires 32 <= n < 64 && i + n < 64 && i < 64
    ensures (((v << n) | (v >> (64 - n))) >> (i + n)) & 1 == (v >> i) & 1
  {
  }

  lemma RoundFrom1(v: bv64, n: bv64, i: bv64)
    requires 1 <= n < 16 && i + n >= 64 && i < 64
    ensures (((v << n) | (v >> (64 - n))) >> (i + n - 64)) & 1 == (v >> i) & 1
  {
  }

  lemma RoundFrom16(v: bv64, n: bv64, i: bv64)
    requires 16 <= n < 32 && i + n >= 64 && i < 64
    ensures (((v << n) | (v >> (64 - n))) >> (i + n - 64)) & 1 == (v >> i) & 1
  {
  }

  lemma RoundFrom32(v: bv64, n: bv64, i: bv64)
    requires 32 <= n < 48 && i + n >= 64 && i < 64
    ensures (((v << n) | (v >> (64 - n))) >> (i + n - 64)) & 1 == (v >> i) & 1
  {
  }

  lemma RoundFrom48(v: bv64, n: bv64, i: bv64)
    requires 48 <= n < 56 && i + n >= 64 && i < 64
    ensures (((v << n) | (v >> (64 - n))) >> (i + n - 64)) & 1 == (v >> i) & 1
  {
  }

  lemma RoundFrom56(v: bv64, n: bv64, i: bv64)
    requires 56 <= n < 64 && i + n >= 64 && i < 64
    ensures (((v << n) | (v >> (64 - n))) >> (i + n - 64)) & 1 == (v >> i) & 1
  {
  }

  lemma GoesUp(v: bv64, n: bv64, i: bv64)
    requires 0 < n < 64 && i < 64 && i + n < 64
    ensures (((v << n) | (v >> (64 - n))) >> (i + n)) & 1 == (v >> i) & 1
  {
    if n < 8 {
      UpFrom1(v, n, i);
    } else if n < 16 {
      UpFrom8(v, n, i);
    } else if n < 32 {
      UpFrom16(v, n, i);
    } else {
      UpFrom32(v, n, i);
    }
  }

  lemma GoesRound(v: bv64, n: bv64, i: bv64)
    requires 0 < n < 64 && i < 64 && i + n >= 64
    ensures (((v << n) | (v >> (64 - n))) >> (i + n - 64)) & 1 == (v >> i) & 1
  {
    if n < 16 {
      RoundFrom1(v, n, i);
    } else if n < 32 {
      RoundFrom16(v, n, i);
    } else if n < 48 {
      RoundFrom32(v, n, i);
    } else if n < 56 {
      RoundFrom48(v, n, i);
    } else {
      RoundFrom56(v, n, i);
    }
  }

  lemma BitIs(x: bv64, i: bv64)
    requires i < 64
    ensures Bit(x, i) == (x >> i) & 1
  {
  }

  lemma BitGoesUp(v: bv64, n: bv64, i: bv64)
    requires 0 < n < 64 && i < 64 && i + n < 64
    ensures Bit((v << n) | (v >> (64 - n)), i + n) == Bit(v, i)
  {
    hide Bit;
    GoesUp(v, n, i);
    BitIs((v << n) | (v >> (64 - n)), i + n);
    BitIs(v, i);
  }

  lemma BitGoesRound(v: bv64, n: bv64, i: bv64)
    requires 0 < n < 64 && i < 64 && i + n >= 64
    ensures Bit((v << n) | (v >> (64 - n)), i + n - 64) == Bit(v, i)
  {
    hide Bit;
    GoesRound(v, n, i);
    BitIs((v << n) | (v >> (64 - n)), i + n - 64);
    BitIs(v, i);
  }

  lemma TurnedMovesBits(value: bv64, n: bv64, i: bv64)
    requires i < 64 && 0 < n < 64
    ensures Bit(Turned(value, n), Round(i, n)) == Bit(value, i)
  {
    hide Bit, Turned;
    TurnedIs(value, n);
    if i + n < 64 {
      BitGoesUp(value, n, i);
    } else {
      BitGoesRound(value, n, i);
    }
  }

  lemma RoundByNone(i: bv64)
    requires i < 64
    ensures Round(i, 0) == i
  {
  }

  /** Each bit of a word turned stands so many places on as it was turned, going round. */
  lemma RotateMovesBits(value: bv64, turn: bv64, i: bv64)
    requires i < 64
    ensures Bit(Rotate(value, turn), Round(i, turn & 63)) == Bit(value, i)
  {
    hide Turned, Bit, Round;
    if turn & 63 == 0 {
      RoundByNone(i);
    } else {
      TurnedMovesBits(value, turn & 63, i);
    }
  }
}
