/** Component_Mask: a fixed-width bitset with one bit per component type id
    (src/ecs/Component.hpp, src/ecs/Component_Mask.cpp, src/ecs/ecs.inl,
    src/2d_engine/ecs.hpp). Bit `i` of the stored unsigned value is
    `bits[i]`; the width is 8 for the `u8` mask of the jbx copy and 16 for
    the `u16` mask of the cv copy. */
module ComponentMask {

  /** `sizeof(Component_Mask) * 8` for the jbx copy (`u8 value`). */
  const JbxWidth: nat := 8
  /** `sizeof(Component_Mask) * 8` for the cv copy (`u16 value`). */
  const CvWidth: nat := 16

  datatype Mask = Mask(bits: seq<bool>)
  {
    function Width(): nat { |bits| }
  }

  /** A default-constructed mask: `value = 0`. */
  function Empty(width: nat): (m: Mask)
    ensures m.Width() == width
    ensures forall i :: 0 <= i < width ==> !m.bits[i]
  {
    Mask(seq(width, _ => false))
  }

  function Pow2(n: nat): nat
  {
    if n == 0 then 1 else 2 * Pow2(n - 1)
  }

  /** The unsigned integer whose binary digits are `bits`, least significant first. */
  function ValueOf(bits: seq<bool>): nat
  {
    if |bits| == 0 then 0 else (if bits[0] then 1 else 0) + 2 * ValueOf(bits[1..])
  }

  lemma {:induction false} ValueOfBound(bits: seq<bool>)
    ensures ValueOf(bits) < Pow2(|bits|)
  {
    if |bits| > 0 {
      ValueOfBound(bits[1..]);
    }
  }

  lemma {:induction false} ValueOfAllClear(bits: seq<bool>)
    requires forall i :: 0 <= i < |bits| ==> !bits[i]
    ensures ValueOf(bits) == 0
  {
    if |bits| > 0 {
      ValueOfAllClear(bits[1..]);
    }
  }

  /** Two masks of one width store the same value only if they have the
      same bits, so the bit view loses nothing. */
  lemma {:induction false} ValueOfInjective(a: seq<bool>, b: seq<bool>)
    requires |a| == |b|
    requires ValueOf(a) == ValueOf(b)
    ensures a == b
  {
    if |a| > 0 {
      ValueOfInjective(a[1..], b[1..]);
      assert a == [a[0]] + a[1..];
      assert b == [b[0]] + b[1..];
    }
  }

  /** `get_value`: the stored unsigned value, which fits the mask's width. */
  function GetValue(m: Mask): (v: nat)
    ensures v < Pow2(m.Width())
    ensures forall other: Mask :: other.Width() == m.Width() && ValueOf(other.bits) == v ==> other == m
  {
    ValueOfBound(m.bits);
    forall other: Mask | other.Width() == m.Width() && ValueOf(other.bits) == ValueOf(m.bits)
      ensures other == m
    {
      ValueOfInjective(other.bits, m.bits);
    }
    ValueOf(m.bits)
  }

  /** `has<T>`: `(value & (1 << id)) != 0`. A bit at or past the width is
      never set, since the value is truncated to the mask's type. */
  function Has(m: Mask, id: nat): (b: bool)
    ensures b ==> id < m.Width()
  {
    id < m.Width() && m.bits[id]
  }

  /** `has<T>` reads binary digit `id` of the stored value `get_value()`:
      the value is the digits below `id`, plus 2^id exactly when the bit
      is set, plus a multiple of 2^(id+1). */
  lemma HasReadsValue(m: Mask, id: nat)
    requires id < m.Width()
    ensures ValueOf(m.bits[..id]) < Pow2(id)
    ensures GetValue(m) ==
      ValueOf(m.bits[..id]) + (if Has(m, id) then Pow2(id) else 0) + 2 * Pow2(id) * ValueOf(m.bits[id + 1..])
  {
    ValueOfBound(m.bits[..id]);
    DigitOfValue(m.bits, id);
  }

  lemma {:induction false} DigitOfValue(bits: seq<bool>, id: nat)
    requires id < |bits|
    ensures ValueOf(bits) ==
      ValueOf(bits[..id]) + (if bits[id] then Pow2(id) else 0) + 2 * Pow2(id) * ValueOf(bits[id + 1..])
  {
    if id > 0 {
      var rest := bits[1..];
      DigitOfValue(rest, id - 1);
      assert rest[..id - 1] == bits[1..id];
      assert rest[id - 1] == bits[id];
      assert rest[id..] == bits[id + 1..];
      assert bits[..id][1..] == bits[1..id];
      var b0 := if bits[0] then 1 else 0;
      assert ValueOf(bits) == b0 + 2 * ValueOf(rest);
      assert ValueOf(bits[..id]) == b0 + 2 * ValueOf(bits[1..id]);
      DigitStep(b0, ValueOf(bits[1..id]), bits[id], Pow2(id - 1), ValueOf(bits[id + 1..]));
    }
  }

  lemma DigitStep(b0: nat, l: nat, bit: bool, p: nat, h: nat)
    ensures b0 + 2 * (l + (if bit then p else 0) + 2 * p * h)
      == (b0 + 2 * l) + (if bit then 2 * p else 0) + 2 * (2 * p) * h
  {
  }

  /** `add<T>`: `value |= (1 << id)`, truncated to the mask's width, so an
      id at or past the width changes nothing. */
  function Add(m: Mask, id: nat): (r: Mask)
    ensures r.Width() == m.Width()
    ensures forall j: nat :: Has(r, j) <==> Has(m, j) || (j == id && id < m.Width())
  {
    if id < m.Width() then Mask(m.bits[id := true]) else m
  }

  /** `remove<T>`: `value &= ~(1 << id)`; every other bit is kept. */
  function Remove(m: Mask, id: nat): (r: Mask)
    ensures r.Width() == m.Width()
    ensures forall j: nat :: Has(r, j) <==> Has(m, j) && j != id
  {
    if id < m.Width() then Mask(m.bits[id := false]) else m
  }

  /** `reset`: the value becomes 0 and no bit is set. */
  function Reset(m: Mask): (r: Mask)
    ensures r.Width() == m.Width()
    ensures GetValue(r) == 0
    ensures forall j: nat :: !Has(r, j)
  {
    var r := Empty(m.Width());
    ValueOfAllClear(r.bits);
    r
  }

  /** Bitwise `&` of two masks of one width. */
  function And(a: Mask, b: Mask): (r: Mask)
    requires a.Width() == b.Width()
    ensures r.Width() == a.Width()
    ensures forall j: nat :: Has(r, j) <==> Has(a, j) && Has(b, j)
  {
    Mask(seq(a.Width(), i requires 0 <= i < a.Width() => a.bits[i] && b.bits[i]))
  }

  /** `contains(other)`: `(value & other.value) == other.value`. */
  function Contains(m: Mask, other: Mask): (b: bool)
    requires m.Width() == other.Width()
    ensures b <==> forall j: nat :: Has(other, j) ==> Has(m, j)
  {
    AndKeepsOnlyShared(m, other);
    And(m, other) == other
  }

  /** `a & b` equals b exactly when every bit of b is also set in a. */
  lemma AndKeepsOnlyShared(a: Mask, b: Mask)
    requires a.Width() == b.Width()
    ensures And(a, b) == b <==> forall j: nat :: Has(b, j) ==> Has(a, j)
  {
    var r := And(a, b);
    if forall j: nat :: Has(b, j) ==> Has(a, j) {
      forall i | 0 <= i < b.Width() ensures r.bits[i] == b.bits[i] {
        assert Has(r, i) <==> Has(a, i) && Has(b, i);
      }
    }
  }

  /** The component type ids whose bit is set. */
  function Bits(m: Mask): set<nat>
  {
    set i: nat | i < m.Width() && m.bits[i]
  }

  /** `a.contains(b)` holds exactly when b's bits are a subset of a's. */
  lemma ContainsIsSubset(a: Mask, b: Mask)
    requires a.Width() == b.Width()
    ensures Contains(a, b) <==> Bits(b) <= Bits(a)
  {
    if Bits(b) <= Bits(a) {
      forall i | 0 <= i < b.Width() ensures And(a, b).bits[i] == b.bits[i] {
        if b.bits[i] {
          assert i in Bits(b);
        }
      }
    }
    if Contains(a, b) {
      forall i | i in Bits(b) ensures i in Bits(a) {
        assert And(a, b).bits[i] == b.bits[i];
      }
    }
  }

  /** Every mask contains itself and the empty mask of its width. */
  lemma ContainsReflexiveAndEmpty(m: Mask)
    ensures Contains(m, m)
    ensures Contains(m, Empty(m.Width()))
  {
    ContainsIsSubset(m, m);
    ContainsIsSubset(m, Empty(m.Width()));
    assert Bits(Empty(m.Width())) == {};
  }

  /** A reset mask contains the empty mask and nothing else. */
  lemma ResetContainsOnlyEmpty(m: Mask, other: Mask)
    requires other.Width() == m.Width()
    ensures Contains(Reset(m), other) <==> other == Empty(m.Width())
  {
    ContainsIsSubset(Reset(m), other);
    assert Bits(Reset(m)) == {};
    if Bits(other) == {} {
      forall i | 0 <= i < other.Width() ensures other.bits[i] == Empty(m.Width()).bits[i] {
        assert i !in Bits(other);
      }
    }
    if other == Empty(m.Width()) {
      assert Bits(other) == {};
    }
  }

  /** `contains` is transitive. */
  lemma ContainsTransitive(a: Mask, b: Mask, c: Mask)
    requires a.Width() == b.Width() == c.Width()
    requires Contains(a, b) && Contains(b, c)
    ensures Contains(a, c)
  {
    ContainsIsSubset(a, b);
    ContainsIsSubset(b, c);
    ContainsIsSubset(a, c);
  }

  /** A second `add<T>` leaves the value as the first one left it. */
  lemma AddIdempotent(m: Mask, id: nat)
    ensures Add(Add(m, id), id) == Add(m, id)
  {
  }

  /** `add<T>` then `remove<T>` gives back the original mask when T's bit
      was clear, and `remove<T>` then `has<T>` is false. */
  lemma AddRemoveRoundTrip(m: Mask, id: nat)
    requires !Has(m, id)
    ensures Remove(Add(m, id), id) == m
    ensures !Has(Remove(m, id), id)
  {
    if id < m.Width() {
      assert Remove(Add(m, id), id).bits == m.bits;
    }
  }

  /** A mask with one more bit still contains everything the original
      contained: adding a component never loses a system's match. */
  lemma AddKeepsContains(m: Mask, id: nat, req: Mask)
    requires m.Width() == req.Width()
    requires Contains(m, req)
    ensures Contains(Add(m, id), req)
  {
    ContainsIsSubset(m, req);
    ContainsIsSubset(Add(m, id), req);
    assert Bits(m) <= Bits(Add(m, id));
  }
}
