/** Kotlin's `/` and `%` on Int truncate toward zero; Dafny's are Euclidean.
    The map builder uses Kotlin's operators, so they are written out here. */
module KotlinInt {

  function Abs(a: int): (r: nat)
    ensures r == a || r == -a
  {
    if a < 0 then -a else a
  }

  /** Kotlin's `a / b`: the exact quotient rounded toward zero. */
  function Quot(a: int, b: int): (q: int)
    requires b != 0
    ensures Abs(q) == Abs(a) / Abs(b)
    ensures q > 0 ==> (a < 0) == (b < 0)
    ensures q < 0 ==> (a < 0) != (b < 0)
  {
    DivOfNat(Abs(a), Abs(b));
    var m := Abs(a) / Abs(b);
    if (a < 0) == (b < 0) then m else -m
  }

  lemma DivOfNat(x: nat, y: nat)
    requires y > 0
    ensures x / y >= 0 && 0 <= x % y < y && x == y * (x / y) + x % y
  {
  }

  /** Kotlin's `a % b`: the remainder that goes with `Quot`; it takes the sign of `a`. */
  function Rem(a: int, b: int): (r: int)
    requires b != 0
    ensures a == b * Quot(a, b) + r
    ensures Abs(r) < Abs(b)
    ensures a >= 0 ==> r >= 0
    ensures a <= 0 ==> r <= 0
  {
    RemIsSignedModulus(a, b);
    a - b * Quot(a, b)
  }

  /** The truncating remainder is the Euclidean remainder of |a|, with the sign of `a`. */
  lemma RemIsSignedModulus(a: int, b: int)
    requires b != 0
    ensures a - b * Quot(a, b) == (if a < 0 then -(Abs(a) % Abs(b)) else Abs(a) % Abs(b))
  {
    DivOfNat(Abs(a), Abs(b));
    var m := Abs(a) / Abs(b);
    var s := Abs(a) % Abs(b);
    var q := Quot(a, b);
    if (a < 0) == (b < 0) {
      assert q == m;
      assert b * q == (if b < 0 then -(Abs(b) * m) else Abs(b) * m);
    } else {
      assert q == -m;
      assert b * q == (if b < 0 then Abs(b) * m else -(Abs(b) * m));
    }
  }

  /** For a non-negative dividend and positive divisor both languages agree. */
  lemma AgreesWithEuclidean(a: int, b: int)
    requires a >= 0 && b > 0
    ensures Quot(a, b) == a / b && Rem(a, b) == a % b
  {
  }
}
