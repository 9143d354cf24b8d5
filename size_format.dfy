/** `format_size`: picks the unit in which a byte count is shown and the
    value it is shown with. Units step by 1024; TB is the last one and is
    never scaled further. Rendering the value with two decimals is not part
    of this model. */
module SizeFormat {

  /** The units, smallest first; each is printed as its own name. */
  datatype Unit = B | KB | MB | GB | TB

  /** How many times a unit is 1024 times the one before it, counted from B. */
  function Rank(u: Unit): nat
  {
    match u
    case B => 0
    case KB => 1
    case MB => 2
    case GB => 3
    case TB => 4
  }

  /** 1024 to the power `k`. */
  function Pow1024(k: nat): (r: nat)
    ensures r >= 1
    ensures k > 0 ==> r >= 1024
  {
    if k == 0 then 1 else 1024 * Pow1024(k - 1)
  }

  /** The unit a size belongs to, by its thresholds: B below 1024, KB below
      1024^2, MB below 1024^3, GB below 1024^4, and TB from 1024^4 on. */
  function UnitOf(size: int): Unit
  {
    if size < Pow1024(1) then B
    else if size < Pow1024(2) then KB
    else if size < Pow1024(3) then MB
    else if size < Pow1024(4) then GB
    else TB
  }

  /** The units the loop tries, in order; TB is what is left after them. */
  const LoopUnits: seq<Unit> := [B, KB, MB, GB]

  /** Multiplying by a positive number keeps a strict bound. */
  lemma ScaledBelow(v: real, p: real, c: real)
    requires p > 0.0
    ensures v < c <==> v * p < c * p
  {
    assert c * p - v * p == (c - v) * p;
    if v < c {
      assert (c - v) * p > 0.0;
    } else {
      assert (v - c) * p >= 0.0;
    }
  }

  /** The unit tried at position `k` of the loop is the one whose
      thresholds the size lies between. */
  lemma UnitAtPosition(size: int, k: nat)
    requires k < |LoopUnits|
    requires k > 0 ==> Pow1024(k) <= size
    requires size < Pow1024(k + 1)
    ensures UnitOf(size) == LoopUnits[k] && Rank(LoopUnits[k]) == k
  {
  }

  /** `format_size`: the loop divides by 1024 while the value is at least
      1024 and a unit below TB is left, and returns the value reached with
      the unit reached. The value times 1024 to the rank of the unit is the
      size. */
  method FormatSize(size: int) returns (value: real, unit: Unit)
    ensures unit == UnitOf(size)
    ensures value * Pow1024(Rank(unit)) as real == size as real
    ensures unit != TB ==> value < 1024.0
    ensures unit != B ==> value >= 1.0
  {
    value := size as real;
    for k := 0 to |LoopUnits|
      invariant value * Pow1024(k) as real == size as real
      invariant k > 0 ==> Pow1024(k) <= size
    {
      var p := Pow1024(k) as real;
      assert Pow1024(k + 1) as real == 1024.0 * p;
      ScaledBelow(value, p, 1024.0);
      if value < 1024.0 {
        UnitAtPosition(size, k);
        if k > 0 {
          ScaledBelow(value, p, 1.0);
        }
        return value, LoopUnits[k];
      }
      assert value / 1024.0 * (1024.0 * p) == value * p;
      value := value / 1024.0;
    }
    assert Pow1024(4) == 1024 * 1024 * 1024 * 1024;
    ScaledBelow(value, Pow1024(4) as real, 1.0);
    unit := TB;
  }

  /** What the contract of FormatSize fixes at the boundaries: 0 is 0 B,
      1023 is 1023 B, 1024 is 1 KB, 1536 is 1.5 KB, 1024^4 is 1 TB and
      1024^5 is 1024 TB. */
  method FormatSizeExamples()
  {
    assert Pow1024(1) == 1024;
    assert Pow1024(4) == 1024 * 1024 * 1024 * 1024;
    assert Pow1024(5) == 1024 * Pow1024(4);
    var v, u := FormatSize(0);
    assert u == B && v == 0.0;
    v, u := FormatSize(1023);
    assert u == B && v == 1023.0;
    v, u := FormatSize(1024);
    assert u == KB && v == 1.0;
    v, u := FormatSize(1536);
    assert u == KB && v == 1.5;
    v, u := FormatSize(Pow1024(4));
    assert u == TB && v == 1.0;
    v, u := FormatSize(Pow1024(5));
    assert u == TB && v == 1024.0;
  }
}
