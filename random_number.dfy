/** `RTools.Number(min, max)`, the same expression in randomizeme.js and
    index.js. `Math.random()` is replaced by the integer `draw` it leads to,
    `Math.floor(Math.random() * (max - min))`, which the caller supplies. */
module RandomNumber {
  import opened JsValues

  /** `(x && typeof x === 'number') ? x : fallback`: a falsy or non-number
      argument is replaced by the default. */
  function NumberOr(x: Value, fallback: int): (r: int)
    ensures r != fallback ==> x == Num(r)
    ensures !Truthy(x) || !x.Num? ==> r == fallback
    ensures Truthy(x) && x.Num? ==> r == x.n
  {
    if x.Num? && x.n != 0 then x.n else fallback
  }

  /** The integers `Math.floor(u * span)` takes for `0 <= u < 1`. */
  predicate IsDraw(draw: int, span: int) {
    if span > 0 then 0 <= draw < span
    else if span == 0 then draw == 0
    else span <= draw <= 0
  }

  /** The lower and upper bound `Number` works with after defaulting. */
  function Low(min: Value): int { NumberOr(min, 0) }
  function High(max: Value): int { NumberOr(max, 1) }

  /** `Number(min, max)`: `floor(u * (max - min)) + min + 1`. For
      `min < max` the result lies in `[min + 1, max]`: `min` itself is never
      returned, although the documentation promises `min..max` inclusive.
      Equal bounds give `min + 1`, and with both bounds defaulted
      (`Number()`) the result is always 1. */
  function Number(min: Value, max: Value, draw: int): (r: int)
    requires IsDraw(draw, High(max) - Low(min))
    ensures Low(min) < High(max) ==> Low(min) + 1 <= r <= High(max)
    ensures Low(min) == High(max) ==> r == Low(min) + 1
    ensures High(max) < Low(min) ==> High(max) + 1 <= r <= Low(min) + 1
    ensures !min.Num? && !max.Num? ==> r == 1
  {
    draw + Low(min) + 1
  }

  /** For `min < max` every value of `[min + 1, max]` is produced by some
      draw and no other value is: the range is exactly `[min + 1, max]`,
      each value by exactly one draw. */
  lemma {:induction false} NumberRange(min: Value, max: Value, r: int)
    requires Low(min) < High(max)
    ensures (exists draw :: IsDraw(draw, High(max) - Low(min)) && Number(min, max, draw) == r)
            <==> Low(min) + 1 <= r <= High(max)
    ensures forall d1, d2 ::
              (IsDraw(d1, High(max) - Low(min)) && IsDraw(d2, High(max) - Low(min)) &&
               Number(min, max, d1) == Number(min, max, d2)) ==> d1 == d2
  {
    if Low(min) + 1 <= r <= High(max) {
      var draw := r - Low(min) - 1;
      assert IsDraw(draw, High(max) - Low(min)) && Number(min, max, draw) == r;
    }
  }

  /** `max = 0` is falsy and so acts as the default 1. */
  lemma ZeroMaxActsAsOne(min: Value, draw: int)
    requires IsDraw(draw, 1 - Low(min))
    ensures Number(min, Num(0), draw) == Number(min, Num(1), draw)
  {
  }
}
