/** JavaScript numbers, with rounding left aside: the reals, two infinities and NaN. */
module JsNumbers {
  import opened Bits

  datatype Num = NaN | NegInf | PosInf | Fin(value: real) {

    /** `this < that`; false as soon as either side is NaN. */
    predicate Lt(that: Num) {
      match (this, that)
      case (Fin(a), Fin(b)) => a < b
      case (NaN, _) => false
      case (_, NaN) => false
      case (NegInf, _) => that != NegInf
      case (_, PosInf) => this != PosInf
      case _ => false
    }

    /** `this <= that`. */
    predicate Le(that: Num) {
      Lt(that) || (this == that && this != NaN)
    }

    /** `Math.max(this, that)`: NaN as soon as either side is. */
    function MaxWith(that: Num): Num {
      if this == NaN || that == NaN then NaN else if Lt(that) then that else this
    }

    /** `Math.min(this, that)`. */
    function MinWith(that: Num): Num {
      if this == NaN || that == NaN then NaN else if Lt(that) then this else that
    }

    /** The real behind a finite number. */
    function OrZero(): real {
      if Fin? then value else 0.0
    }

    /** `Number.isFinite`. */
    predicate IsFinite() {
      Fin?
    }

    /** `Number.isInteger`. */
    predicate IsInteger() {
      Fin? && value == value.Floor as real
    }

    /** `Number.isSafeInteger`. */
    predicate IsSafeInteger() {
      IsInteger() && -9007199254740991.0 <= value <= 9007199254740991.0
    }
  }

  /** m / 2^k. Every finite double has this form. */
  function Dyad(m: int, k: nat): real {
    m as real / Pow2(k) as real
  }

  ghost predicate IsDyadic(x: real) {
    exists m, k :: x == Dyad(m, k)
  }

  type Dyadic = x: real | IsDyadic(x) witness Dyad(0, 0)

  /** A number the runtime can hold; the sums and products of this model are exact. */
  type Double = n: Num | n.Fin? ==> IsDyadic(n.value) witness NaN

  /** Whole numbers and halves are dyadic. */
  lemma HalfIsDyadic(h: int)
    ensures IsDyadic(h as real / 2.0) && IsDyadic(h as real)
  {
    assert Pow2(0) == 1 && Pow2(1) == 2;
    assert h as real / 2.0 == Dyad(h, 1) && h as real == Dyad(h, 0);
  }

  function Max(a: real, b: real): real {
    if a >= b then a else b
  }

  function Min(a: real, b: real): real {
    if a <= b then a else b
  }

  function Abs(a: real): real {
    if a < 0.0 then -a else a
  }

  /** `Math.min(max, Math.max(min, value))`. */
  function Clamp(value: real, min: real, max: real): real {
    Min(max, Max(min, value))
  }
}
