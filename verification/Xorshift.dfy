/** The seeded generator shared by the bootstrap and the generated test inputs. */
module Xorshift {

  function Shift13(x: bv32): bv32 { x ^ (x << 13) }

  function Shift17(x: bv32): bv32 { x ^ (x >> 17) }

  function Shift5(x: bv32): bv32 { x ^ (x << 5) }

  /** One call: the three shifts on a 32-bit state. */
  function Next(x: bv32): bv32 { Shift5(Shift17(Shift13(x))) }

  /** `seed >>> 0 || 1` */
  function Seeded(seed: int): bv32 {
    var u := (seed % 0x1_0000_0000) as bv32;
    if u == 0 then 1 else u
  }

  // Each shift-and-xor is undone by repeating it with doubled shifts until they leave the word.

  function Undo13(a: bv32): bv32 { var t := a ^ (a << 13); t ^ (t << 26) }

  function Undo17(b: bv32): bv32 { b ^ (b >> 17) }

  function Undo5(y: bv32): bv32 { var t := y ^ (y << 5); var u := t ^ (t << 10); u ^ (u << 20) }

  lemma Shift13Reversible(x: bv32)
    ensures Undo13(Shift13(x)) == x
    ensures x != 0 ==> Shift13(x) != 0
  {
  }

  lemma Shift17Reversible(x: bv32)
    ensures Undo17(Shift17(x)) == x
    ensures x != 0 ==> Shift17(x) != 0
  {
  }

  lemma Shift5Reversible(x: bv32)
    ensures Undo5(Shift5(x)) == x
    ensures x != 0 ==> Shift5(x) != 0
  {
  }

  lemma StaysNonzero(x: bv32)
    requires x != 0
    ensures Next(x) != 0
  {
    Shift13Reversible(x);
    Shift17Reversible(Shift13(x));
    Shift5Reversible(Shift17(Shift13(x)));
  }

  /** A step loses nothing: two states never run into the same one. */
  lemma StatesNeverMerge(x: bv32, y: bv32)
    requires Next(x) == Next(y)
    ensures x == y
  {
    Shift5Reversible(Shift17(Shift13(x)));
    Shift5Reversible(Shift17(Shift13(y)));
    Shift17Reversible(Shift13(x));
    Shift17Reversible(Shift13(y));
    Shift13Reversible(x);
    Shift13Reversible(y);
  }

  /** The state after `k` calls. */
  function After(x: bv32, k: nat): bv32
    decreases k
  {
    if k == 0 then x else After(Next(x), k - 1)
  }

  /** No seed gets stuck at zero. */
  lemma NeverZero(seed: int, k: nat)
    ensures After(Seeded(seed), k) != 0
  {
    StaysNonzeroAfter(Seeded(seed), k);
  }

  lemma {:induction false} StaysNonzeroAfter(x: bv32, k: nat)
    requires x != 0
    ensures After(x, k) != 0
    decreases k
  {
    if k > 0 {
      StaysNonzero(x);
      StaysNonzeroAfter(Next(x), k - 1);
    }
  }

  function Mod(v: nat, n: nat): (r: nat)
    requires n > 0
    ensures r < n
  {
    v % n
  }

  /** `next() % n` on the state the call produced. */
  function Draw(x: bv32, n: nat): (j: nat)
    requires n > 0
    ensures j < n
  {
    Mod(x as nat, n)
  }

  /** The first states from seed 1, as the published 32-bit generator has them. */
  lemma FirstStates()
    ensures Next(1) == 270369 && Next(270369) == 67634689 && Next(67634689) == 2647435461
  {
  }

  /** A seed is read modulo 2 to the 32; what comes out as 0 counts as 1. */
  lemma ZeroSeed(seed: int)
    requires seed % 0x1_0000_0000 == 0
    ensures Seeded(seed) == 1
  {
  }

  lemma SeedWraps(seed: int)
    ensures Seeded(seed + 0x1_0000_0000) == Seeded(seed)
  {
    assert (seed + 0x1_0000_0000) % 0x1_0000_0000 == seed % 0x1_0000_0000;
  }

  /** A seed of 32 bits is the first state itself. */
  lemma SeedIsState(seed: int)
    requires 0 <= seed < 0x1_0000_0000
    ensures Seeded(seed) == seed as bv32 || (seed as bv32 == 0 && Seeded(seed) == 1)
  {
    assert seed % 0x1_0000_0000 == seed;
  }
}
