/** A memory of bytes: little-endian loads and stores, and what a store leaves alone. */
module HeapMemory {
  import opened Words

  /** The n low bytes of x, little-endian. */
  function Bytes(x: nat, n: nat): (s: seq<Byte>)
    ensures |s| == n
    decreases n
  {
    if n == 0 then [] else [x % 0x100] + Bytes(x / 0x100, n - 1)
  }

  /** Stores s at address a; bytes outside the memory are lost. */
  function Write(mem: seq<Byte>, a: nat, s: seq<Byte>): (r: seq<Byte>)
    ensures |r| == |mem|
  {
    seq<Byte>(|mem|, i requires 0 <= i < |mem| => if a <= i < a + |s| then s[i - a] else mem[i])
  }

  function ZeroBytes(n: nat): (s: seq<Byte>)
    ensures |s| == n && forall k :: 0 <= k < n ==> s[k] == 0
  {
    seq<Byte>(n, i requires 0 <= i < n => 0)
  }

  /** The n-byte number at address a. */
  function Load(mem: seq<Byte>, a: nat, n: nat): (x: nat)
    requires a + n <= |mem|
    decreases n
  {
    if n == 0 then 0 else var low: nat := mem[a]; low + 0x100 * Load(mem, a + 1, n - 1)
  }

  /** The bytes s lie at address a. */
  predicate Holds(mem: seq<Byte>, a: nat, s: seq<Byte>)
  {
    a + |s| <= |mem| && mem[a..a + |s|] == s
  }

  /** Loading reads back what was stored, modulo the size of the field. */
  lemma {:induction false} LoadIs(mem: seq<Byte>, a: nat, x: nat, n: nat)
    requires Holds(mem, a, Bytes(x, n))
    ensures a + n <= |mem| && Load(mem, a, n) == x % Pow2(8 * n)
    decreases n
  {
    if n == 0 {
      assert Pow2(8 * n) == 1;
    } else {
      var s := Bytes(x, n);
      assert mem[a] == mem[a..a + n][0] == s[0];
      assert mem[a + 1..a + n] == mem[a..a + n][1..] == s[1..];
      LoadIs(mem, a + 1, x / 0x100, n - 1);
      ByteStep(x, n);
    }
  }

  /** A 64-bit field. */
  lemma WordIs(mem: seq<Byte>, a: nat, x: nat)
    requires Holds(mem, a, Bytes(x, 8)) && x < WORD_LIMIT
    ensures a + 8 <= |mem| && Load(mem, a, 8) == x
  {
    hide Bytes, Load, Pow2, Holds;
    LoadIs(mem, a, x, 8);
    Pow2Word();
    SmallMod(x, WORD_LIMIT);
  }

  lemma SixteenBits()
    ensures Pow2(8 * 2) == 0x1_0000
  {
    Pow2Byte();
    Pow2Twice(8, 0x100);
  }

  /** Loads are little-endian: the lowest byte comes first. */
  lemma {:induction false} LittleEndian(mem: seq<Byte>, a: nat, n: nat, k: nat)
    requires a + n <= |mem| && k < n
    ensures mem[a + k] as nat == Load(mem, a, n) / Pow2(8 * k) % 0x100
    decreases n
  {
    var low: nat := mem[a];
    var rest := Load(mem, a + 1, n - 1);
    AddMultiple(rest, low, 0x100);
    SmallMod(low, 0x100);
    if k == 0 {
      assert Pow2(8 * k) == 1;
    } else {
      LittleEndian(mem, a + 1, n - 1, k - 1);
      EightMore(k);
      DivTwice(Load(mem, a, n), 0x100, Pow2(8 * (k - 1)));
    }
  }

  lemma ByteStep(x: nat, n: nat)
    requires n > 0
    ensures Pow2(8 * (n - 1)) > 0 && x % Pow2(8 * n) == x % 0x100 + 0x100 * (x / 0x100 % Pow2(8 * (n - 1)))
  {
    EightMore(n);
    ModStep(x, 0x100, Pow2(8 * (n - 1)));
  }

  lemma EightMore(n: nat)
    requires n > 0
    ensures Pow2(8 * n) == 0x100 * Pow2(8 * (n - 1))
  {
    Pow2Sum(8, 8 * (n - 1));
    assert Pow2(8) == 0x100;
  }

  // ---------------------------------------------------------------- what a store leaves alone

  /** mem' differs from mem at most in the n bytes at a. */
  ghost predicate OnlyChanges(mem: seq<Byte>, mem': seq<Byte>, a: nat, n: nat)
  {
    |mem'| == |mem| && forall i :: 0 <= i < |mem| && !(a <= i < a + n) ==> mem'[i] == mem[i]
  }

  /** The n bytes at b are the same in both memories. */
  ghost predicate SameBytes(mem: seq<Byte>, mem': seq<Byte>, b: nat, n: nat)
  {
    |mem'| == |mem| && b + n <= |mem| && forall i :: b <= i < b + n ==> mem'[i] == mem[i]
  }

  lemma WriteOnly(mem: seq<Byte>, a: nat, s: seq<Byte>, b: nat, n: nat)
    requires b <= a && a + |s| <= b + n
    ensures OnlyChanges(mem, Write(mem, a, s), b, n)
  {
  }

  lemma OnlyTwice(m0: seq<Byte>, m1: seq<Byte>, m2: seq<Byte>, a: nat, n: nat)
    requires OnlyChanges(m0, m1, a, n) && OnlyChanges(m1, m2, a, n)
    ensures OnlyChanges(m0, m2, a, n)
  {
  }

  lemma OutsideKept(mem: seq<Byte>, mem': seq<Byte>, a: nat, m: nat, b: nat, n: nat)
    requires OnlyChanges(mem, mem', a, m) && b + n <= |mem| && (a + m <= b || b + n <= a)
    ensures SameBytes(mem, mem', b, n)
  {
  }

  lemma FewerSame(mem: seq<Byte>, mem': seq<Byte>, b: nat, n: nat, c: nat, m: nat)
    requires SameBytes(mem, mem', b, n) && b <= c && c + m <= b + n
    ensures SameBytes(mem, mem', c, m)
  {
  }

  lemma SameTwice(m0: seq<Byte>, m1: seq<Byte>, m2: seq<Byte>, b: nat, n: nat)
    requires SameBytes(m0, m1, b, n) && SameBytes(m1, m2, b, n)
    ensures SameBytes(m0, m2, b, n)
  {
  }

  lemma SameSlice(mem: seq<Byte>, mem': seq<Byte>, b: nat, n: nat)
    requires SameBytes(mem, mem', b, n)
    ensures |mem'| == |mem| && b + n <= |mem| && mem'[b..b + n] == mem[b..b + n]
  {
  }

  /** A stored field stays where its bytes are the same. */
  lemma HoldsKept(mem: seq<Byte>, mem': seq<Byte>, b: nat, n: nat, a: nat, s: seq<Byte>)
    requires Holds(mem, a, s) && SameBytes(mem, mem', b, n) && b <= a && a + |s| <= b + n
    ensures Holds(mem', a, s)
  {
    FewerSame(mem, mem', b, n, a, |s|);
    SameSlice(mem, mem', a, |s|);
  }

  lemma StoredAt(mem: seq<Byte>, a: nat, s: seq<Byte>)
    requires a + |s| <= |mem|
    ensures Holds(Write(mem, a, s), a, s)
  {
  }

  /** A store next to a field leaves it alone. */
  lemma WrittenBeside(mem: seq<Byte>, a: nat, s: seq<Byte>, b: nat, t: seq<Byte>)
    requires Holds(mem, b, t) && (a + |s| <= b || b + |t| <= a)
    ensures Holds(Write(mem, a, s), b, t)
  {
    assert Write(mem, a, s)[b..b + |t|] == mem[b..b + |t|];
  }
}
