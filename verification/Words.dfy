/** 64-bit unsigned addition, as the shared-data benchmarks use it. */
module Words {
  import opened Numbers

  /** `uint64` arithmetic wraps here. */
  const WORD: nat := 0x1_0000_0000_0000_0000

  lemma WordIsPower()
    ensures WORD == Pow2(64)
  {
    Pow2Constants();
  }

  function AddWord(a: nat, b: nat): nat {
    (a + b) % WORD
  }

  /** Wrapping along the way gives the wrapped sum. */
  lemma AddWordOfSums(a: nat, b: nat, x: nat, y: nat)
    requires a == x % WORD && (b == y || b == y % WORD)
    ensures AddWord(a, b) == (x + y) % WORD
  {
    ModAdd(x, b, WORD);
    ModAdd(y, x, WORD);
  }

  /** 0 + 1 + ... + (n - 1) */
  ghost function Triangle(n: nat): nat {
    if n == 0 then 0 else Triangle(n - 1) + (n - 1)
  }

  lemma Triangles()
    ensures Triangle(8) == 28 && Triangle(16) == 120
  {
    assert Triangle(4) == 6;
    assert Triangle(12) == 66;
  }
}
