/**
 The colour tier `colorize` picks for a percentage. The escape codes that
 wrap the text are not modelled; the model records which colour is chosen.
 */
module Colors {

  /** `Plain` is the text passed through unchanged (colours disabled). */
  datatype Paint = Plain | Green | Yellow | Red

  const GreenFrom: real := 90.0
  const YellowFrom: real := 80.0

  /** The tier: at least 90 green, at least 80 yellow, else red. */
  function Tier(percent: real): (p: Paint)
    ensures p != Plain
    ensures p == Green <==> percent >= GreenFrom
    ensures p == Yellow <==> YellowFrom <= percent < GreenFrom
    ensures p == Red <==> percent < YellowFrom
  {
    if percent >= GreenFrom then Green
    else if percent >= YellowFrom then Yellow
    else Red
  }

  /** The number `colorize` reads back out of the text it is given: the
      percentage printed with two decimals (rounded half up here), and
      without its sign, since the pattern it matches takes digits and dots
      only. */
  function Displayed(percent: real): (d: real)
    ensures d >= 0.0
    ensures percent >= 0.0 ==> percent - 0.005 < d <= percent + 0.005
  {
    var cents := (percent * 100.0 + 0.5).Floor;
    if cents < 0 then -cents as real / 100.0 else cents as real / 100.0
  }

  /** `colorize`: the text unchanged when colours are off, else in the
      colour of the tier of the number it displays. */
  function Colorize(percent: real, useColors: bool): (p: Paint)
    ensures !useColors <==> p == Plain
    ensures useColors && percent >= 0.0 ==>
      && (p == Green <==> percent >= 89.995)
      && (p == Yellow <==> 79.995 <= percent < 89.995)
      && (p == Red <==> percent < 79.995)
  {
    if !useColors then Plain else Tier(Displayed(percent))
  }

  /** Worse to better: red, yellow, green. */
  function Rank(p: Paint): nat {
    match p
    case Plain => 0
    case Red => 1
    case Yellow => 2
    case Green => 3
  }

  /** Better coverage never gets a worse colour. */
  lemma TierMonotone(a: real, b: real)
    requires a <= b
    ensures Rank(Tier(a)) <= Rank(Tier(b))
  {
  }

  /** Colouring never ranks better coverage worse. */
  lemma ColorizeMonotone(a: real, b: real, useColors: bool)
    requires 0.0 <= a <= b
    ensures Rank(Colorize(a, useColors)) <= Rank(Colorize(b, useColors))
  {
    if useColors {
      DisplayedMonotone(a, b);
      TierMonotone(Displayed(a), Displayed(b));
    }
  }

  /** Printing to two decimals keeps the order of non-negative values. */
  lemma DisplayedMonotone(a: real, b: real)
    requires 0.0 <= a <= b
    ensures Displayed(a) <= Displayed(b)
  {
    var x, y := a * 100.0 + 0.5, b * 100.0 + 0.5;
    assert x <= y;
    assert x.Floor as real <= x && y < y.Floor as real + 1.0;
    assert 0 <= x.Floor <= y.Floor;
  }

  /** The boundaries: 95 and 90 green, 85 and 80 yellow, 70 red; 89.996
      prints as "89.996" rounded to " 90.00" and is therefore green. */
  lemma ExampleTiers()
    ensures Colorize(95.0, true) == Green && Colorize(90.0, true) == Green
    ensures Colorize(85.0, true) == Yellow && Colorize(80.0, true) == Yellow
    ensures Colorize(70.0, true) == Red && Colorize(79.99, true) == Red && Colorize(79.996, true) == Yellow
    ensures Colorize(89.996, true) == Green && Colorize(70.0, false) == Plain
  {
  }
}
