/** The 64-bit hash of c_jhash.h, by which the trees know a path. */
module JHashes {
  import opened Powers

  const M: int := 0x1_0000_0000_0000_0000

  type Word = x: int | 0 <= x < M
  type Byte = x: int | 0 <= x < 256

  function Add(x: Word, y: int): Word { (x + y) % M }
  function Sub(x: Word, y: Word): Word { (x - y) % M }

  function XorByte(x: Byte, y: Byte): Byte { ((x as bv8) ^ (y as bv8)) as int }

  /** The exclusive or, byte by byte from the lowest. */
  function Xor(x: nat, y: nat): nat
    decreases x + y
  {
    if x == 0 && y == 0 then 0 else XorByte(x % 256, y % 256) + 256 * Xor(x / 256, y / 256)
  }

  lemma ByteTwice(x: Byte, y: Byte)
    ensures XorByte(XorByte(x, y), y) == x
  {
    BitsBack((x as bv8) ^ (y as bv8));
    ByteBack(x);
    BitsTwice(x as bv8, y as bv8);
  }

  lemma NoBits()
    ensures XorByte(0, 0) == 0
  {
  }

  lemma BitsBack(b: bv8)
    ensures (b as int) as bv8 == b
  {
  }

  lemma HalfBack(x: nat)
    requires x < 16
    ensures (x as bv4) as int == x
  {
  }

  lemma TwoHalves(h: bv4, l: bv4)
    ensures (((h as bv8) << 4) | (l as bv8)) as int == 16 * (h as int) + l as int
  {
  }

  lemma ByteBack(x: Byte)
    ensures (x as bv8) as int == x
  {
    var h, l := (x / 16) as bv4, (x % 16) as bv4;
    HalfBack(x / 16);
    HalfBack(x % 16);
    TwoHalves(h, l);
    BitsBack(((h as bv8) << 4) | (l as bv8));
  }

  lemma BitsTwice(a: bv8, b: bv8)
    ensures (a ^ b) ^ b == a
  {
  }

  lemma XorLow(x: nat, y: nat)
    ensures Xor(x, y) % 256 == XorByte(x % 256, y % 256) && Xor(x, y) / 256 == Xor(x / 256, y / 256)
  {
    if x == 0 && y == 0 { NoBits(); } else { ByteAndRest(XorByte(x % 256, y % 256), Xor(x / 256, y / 256)); }
  }

  lemma {:induction false} XorTwice(x: nat, y: nat)
    ensures Xor(Xor(x, y), y) == x
    decreases x + y
  {
    if x > 0 || y > 0 {
      XorTwice(x / 256, y / 256);
      ByteTwice(x % 256, y % 256);
      XorLow(x, y);
      XorLow(Xor(x, y), y);
    }
  }

  lemma ByteAndRest(b: Byte, q: nat)
    ensures (b + 256 * q) % 256 == b && (b + 256 * q) / 256 == q
  {
  }

  lemma {:induction false} XorBound(x: nat, y: nat, n: nat)
    requires x < Power256(n) && y < Power256(n)
    ensures Xor(x, y) < Power256(n)
  {
    if n > 0 && (x > 0 || y > 0) { XorBound(x / 256, y / 256, n - 1); }
  }

  lemma WordPower()
    ensures Power256(8) == M
  {
    assert Power256(4) == 0x1_0000_0000;
  }

  function XorWord(x: Word, y: Word): Word {
    WordPower();
    XorBound(x, y, 8);
    Xor(x, y)
  }

  lemma Shrinks(x: Word, d: nat)
    requires d >= 1
    ensures 0 <= x / d < M
  {
    assert x / d <= x;
  }

  function Right(x: Word, n: nat): Word {
    Shrinks(x, Power2(n));
    x / Power2(n)
  }

  function Left(x: Word, n: nat): Word { (x * Power2(n)) % M }

  // ---------- the mix ----------

  datatype Abc = Abc(a: Word, b: Word, c: Word)

  /** One line of the mix: x -= y; x -= z; x ^= w, where w is z shifted. */
  function Line(x: Word, y: Word, z: Word, w: Word): Word { XorWord(Sub(Sub(x, y), z), w) }
  function Unline(x: Word, y: Word, z: Word, w: Word): Word { Add(Add(XorWord(x, w), z), y) }

  lemma AddSub(x: Word, y: Word)
    ensures Add(Sub(x, y), y) == x && Sub(Add(x, y), y) == x
  {
    assert Sub(x, y) == if x >= y then x - y else x - y + M;
    assert Add(x, y) == if x + y < M then x + y else x + y - M;
  }

  lemma LineUndone(x: Word, y: Word, z: Word, w: Word)
    ensures Unline(Line(x, y, z, w), y, z, w) == x
    ensures Line(Unline(x, y, z, w), y, z, w) == x
  {
    var d, e := Sub(x, y), Sub(Sub(x, y), z);
    XorTwice(e, w);
    AddSub(d, z);
    AddSub(x, y);
    var u := XorWord(x, w);
    XorTwice(x, w);
    AddSub(u, z);
    AddSub(Add(u, z), y);
  }

  function MixA(s: Abc, n: nat): Abc { s.(a := Line(s.a, s.b, s.c, Right(s.c, n))) }
  function MixB(s: Abc, n: nat): Abc { s.(b := Line(s.b, s.c, s.a, Left(s.a, n))) }
  function MixC(s: Abc, n: nat): Abc { s.(c := Line(s.c, s.a, s.b, Right(s.b, n))) }
  function UnmixA(s: Abc, n: nat): Abc { s.(a := Unline(s.a, s.b, s.c, Right(s.c, n))) }
  function UnmixB(s: Abc, n: nat): Abc { s.(b := Unline(s.b, s.c, s.a, Left(s.a, n))) }
  function UnmixC(s: Abc, n: nat): Abc { s.(c := Unline(s.c, s.a, s.b, Right(s.b, n))) }

  function Turn(s: Abc, i: nat, j: nat, k: nat): Abc { MixC(MixB(MixA(s, i), j), k) }
  function Unturn(s: Abc, i: nat, j: nat, k: nat): Abc { UnmixA(UnmixB(UnmixC(s, k), j), i) }

  lemma TurnUndone(s: Abc, i: nat, j: nat, k: nat)
    ensures Unturn(Turn(s, i, j, k), i, j, k) == s
    ensures Turn(Unturn(s, i, j, k), i, j, k) == s
  {
    var t1 := MixA(s, i);
    var t2 := MixB(t1, j);
    LineUndone(s.a, s.b, s.c, Right(s.c, i));
    LineUndone(t1.b, t1.c, t1.a, Left(t1.a, j));
    LineUndone(t2.c, t2.a, t2.b, Right(t2.b, k));
    var u1 := UnmixC(s, k);
    var u2 := UnmixB(u1, j);
    LineUndone(s.c, s.a, s.b, Right(s.b, k));
    LineUndone(u1.b, u1.c, u1.a, Left(u1.a, j));
    LineUndone(u2.a, u2.b, u2.c, Right(u2.c, i));
  }

  /** _c_mix64() */
  function Mix(s: Abc): Abc { Turn(Turn(Turn(Turn(s, 43, 9, 8), 38, 23, 5), 35, 49, 11), 12, 18, 22) }
  function Unmix(s: Abc): Abc { Unturn(Unturn(Unturn(Unturn(s, 12, 18, 22), 35, 49, 11), 38, 23, 5), 43, 9, 8) }

  /** The mix is reversible. */
  lemma MixUndone(s: Abc)
    ensures Unmix(Mix(s)) == s && Mix(Unmix(s)) == s
  {
    var t1 := Turn(s, 43, 9, 8);
    var t2 := Turn(t1, 38, 23, 5);
    var t3 := Turn(t2, 35, 49, 11);
    TurnUndone(s, 43, 9, 8);
    TurnUndone(t1, 38, 23, 5);
    TurnUndone(t2, 35, 49, 11);
    TurnUndone(t3, 12, 18, 22);
    var u1 := Unturn(s, 12, 18, 22);
    var u2 := Unturn(u1, 35, 49, 11);
    var u3 := Unturn(u2, 38, 23, 5);
    TurnUndone(s, 12, 18, 22);
    TurnUndone(u1, 35, 49, 11);
    TurnUndone(u2, 38, 23, 5);
    TurnUndone(u3, 43, 9, 8);
  }

  // ---------- the words of a key ----------

  function Power256(n: nat): (r: nat) ensures r >= 1 { if n == 0 then 1 else 256 * Power256(n - 1) }

  /** Bytes as a little-endian number. */
  function LittleEndian(s: seq<Byte>): nat { if s == [] then 0 else s[0] + 256 * LittleEndian(s[1..]) }

  lemma {:induction false} LittleEndianFits(s: seq<Byte>)
    ensures LittleEndian(s) < Power256(|s|)
  {
    if s != [] { LittleEndianFits(s[1..]); }
  }

  lemma EightBytesFit(s: seq<Byte>)
    requires |s| == 8
    ensures LittleEndian(s) < M
  {
    LittleEndianFits(s);
    WordPower();
  }

  lemma {:induction false} LittleEndianInjective(s: seq<Byte>, t: seq<Byte>)
    requires |s| == |t| && LittleEndian(s) == LittleEndian(t)
    ensures s == t
  {
    if s != [] {
      assert s[0] == t[0] by { assert LittleEndian(s) % 256 == s[0] && LittleEndian(t) % 256 == t[0]; }
      LittleEndianInjective(s[1..], t[1..]);
      assert s == [s[0]] + s[1..] && t == [t[0]] + t[1..];
    }
  }

  lemma {:induction false} LittleEndianPadded(s: seq<Byte>, n: nat)
    ensures LittleEndian(s + Zeros(n)) == LittleEndian(s)
    decreases |s| + n
  {
    if s != [] {
      assert (s + Zeros(n))[1..] == s[1..] + Zeros(n);
      LittleEndianPadded(s[1..], n);
    } else if n > 0 {
      assert (s + Zeros(n))[1..] == [] + Zeros(n - 1);
      LittleEndianPadded([], n - 1);
    }
  }

  function Zeros(n: nat): seq<Byte> { seq(n, _ => 0) }

  type Block = k: seq<Byte> | |k| == 24 witness seq(24, _ => 0)

  /** Adds the three words of a block. */
  function Absorb(s: Abc, k: Block): Abc {
    Abc(Add(s.a, LittleEndian(k[0..8])), Add(s.b, LittleEndian(k[8..16])), Add(s.c, LittleEndian(k[16..24])))
  }

  /** The last, incomplete block, filled up with zeros; the lowest byte of the third word is left to the length. */
  function Padded(t: seq<Byte>): Block
    requires |t| < 24
  {
    seq(24, i requires 0 <= i < 24 =>
      if i < 16 then (if i < |t| then t[i] else 0)
      else if i == 16 then 0
      else if i - 1 < |t| then t[i - 1] else 0)
  }

  /** Takes the whole blocks of a key one after the other. */
  function Fold<S>(s: S, k: seq<Byte>, step: (S, Block) -> S): S
    decreases |k|
  {
    if |k| < 24 then s else Fold(step(s, k[..24]), k[24..], step)
  }

  function Step(s: Abc, k: Block): Abc { Mix(Absorb(s, k)) }

  /** The state after the whole blocks of a key. */
  function After(s: Abc, k: seq<Byte>): Abc { Fold(s, k, Step) }

  /** What the whole blocks of a key leave over. */
  function Rest(k: seq<Byte>): (r: seq<Byte>)
    ensures |r| == |k| % 24
    decreases |k|
  {
    if |k| < 24 then k else Rest(k[24..])
  }

  function Start(initval: Word): Abc { Abc(initval, initval, 0x9e3779b97f4a7c13) }

  /** The state at the end; its third word is the hash. */
  function Final(k: seq<Byte>, initval: Word): Abc {
    Finish(After(Start(initval), k), Rest(k), |k|)
  }

  function Finish(s: Abc, t: seq<Byte>, length: nat): Abc
    requires |t| < 24
  {
    Step(s.(c := Add(s.c, length)), Padded(t))
  }

  // ---------- the hash ----------

  function Load(k: seq<Byte>, p: nat): int
    requires p + 8 <= |k|
  {
    k[p] as int + k[p + 1] as int * 0x100 + k[p + 2] as int * 0x1_0000 + k[p + 3] as int * 0x100_0000
    + k[p + 4] as int * 0x1_0000_0000 + k[p + 5] as int * 0x100_0000_0000
    + k[p + 6] as int * 0x1_0000_0000_0000 + k[p + 7] as int * 0x100_0000_0000_0000
  }

  lemma LoadIsLittleEndian(k: seq<Byte>, p: nat)
    requires p + 8 <= |k|
    ensures Load(k, p) == LittleEndian(k[p..p + 8])
  {
    var s := k[p..p + 8];
    assert forall j | 0 <= j < 8 :: s[j] == k[p + j];
    forall j | 0 <= j < 8 ensures LittleEndian(s[j..]) == s[j] as int + 256 * LittleEndian(s[j + 1..]) {
      assert s[j..][1..] == s[j + 1..];
    }
    assert s[0..] == s && s[8..] == [];
  }

  lemma AddTwice(x: Word, y: int, z: int)
    ensures Add(Add(x, y), z) == Add(x, y + z)
  {
  }

  /** Adds the bytes of one word from the last down, as the cases of the switch fall through. */
  method AddBytes(x: Word, t: seq<Byte>, lo: nat, hi: nat, shift: nat) returns (r: Word)
    requires lo <= hi <= |t|
    ensures r == Add(x, shift * LittleEndian(t[lo..hi]))
  {
    r := x;
    var j := hi;
    assert t[hi..hi] == [];
    while j > lo
      invariant lo <= j <= hi
      invariant r == Add(x, shift * (Power256(j - lo) * LittleEndian(t[j..hi])))
    {
      j := j - 1;
      assert t[j..hi][1..] == t[j + 1..hi];
      ByteStep(shift, Power256(j - lo), t[j], LittleEndian(t[j + 1..hi]));
      AddTwice(x, shift * (Power256(j + 1 - lo) * LittleEndian(t[j + 1..hi])), shift * (Power256(j - lo) * t[j]));
      r := Add(r, shift * (Power256(j - lo) * t[j]));
    }
  }

  lemma ByteStep(shift: nat, p: nat, b: nat, v: nat)
    ensures shift * (256 * p * v) + shift * (p * b) == shift * (p * (b + 256 * v))
  {
    assert p * (b + 256 * v) == p * b + 256 * p * v;
  }

  /** Takes in one whole block. */
  method TakeBlock(s: Abc, k: seq<Byte>, p: nat) returns (r: Abc)
    requires p + 24 <= |k|
    ensures r == Step(s, k[p..p + 24])
  {
    LoadIsLittleEndian(k, p);
    LoadIsLittleEndian(k, p + 8);
    LoadIsLittleEndian(k, p + 16);
    ghost var b := k[p..p + 24];
    assert b[0..8] == k[p..p + 8] && b[8..16] == k[p + 8..p + 16] && b[16..24] == k[p + 16..p + 24];
    r := Mix(Abc(Add(s.a, Load(k, p)), Add(s.b, Load(k, p + 8)), Add(s.c, Load(k, p + 16))));
  }

  /** Takes in the bytes that are left. */
  method TakeTail(s: Abc, t: seq<Byte>) returns (r: Abc)
    requires |t| < 24
    ensures r == Step(s, Padded(t))
  {
    TailWords(t);
    var m, n := if |t| < 8 then |t| else 8, if |t| < 16 then |t| else 16;
    var c := AddBytes(s.c, t, n, |t|, 256);
    var b := AddBytes(s.b, t, m, n, 1);
    var a := AddBytes(s.a, t, 0, m, 1);
    assert t[n..|t|] == t[n..];
    r := Mix(Abc(a, b, c));
  }

  lemma NextBlock(k: seq<Byte>, p: nat)
    requires p + 24 <= |k|
    ensures k[p..][..24] == k[p..p + 24] && k[p..][24..] == k[p + 24..]
  {
  }

  /** Hashes a key. */
  method JHash64(k: seq<Byte>, initval: Word) returns (c: Word)
    ensures c == Final(k, initval).c
  {
    var s := Start(initval);
    var p, len := 0, |k|;
    assert k[0..] == k;
    while len >= 24
      invariant 0 <= p && 0 <= len && p + len == |k|
      invariant Fold(Start(initval), k, Step) == Fold(s, k[p..], Step) && Rest(k) == Rest(k[p..])
    {
      NextBlock(k, p);
      s := TakeBlock(s, k, p);
      p, len := p + 24, len - 24;
    }
    s := TakeTail(s.(c := Add(s.c, |k|)), k[p..]);
    c := s.c;
  }

  /** The bytes that are left make the words of the padded block. */
  lemma TailWords(t: seq<Byte>)
    requires |t| < 24
    ensures var m, n := if |t| < 8 then |t| else 8, if |t| < 16 then |t| else 16; var b := Padded(t);
            && LittleEndian(b[0..8]) == LittleEndian(t[0..m]) && LittleEndian(b[8..16]) == LittleEndian(t[m..n])
            && LittleEndian(b[16..24]) == 256 * LittleEndian(t[n..])
  {
    var m, n := if |t| < 8 then |t| else 8, if |t| < 16 then |t| else 16;
    PaddedWords(t, m, n);
    LittleEndianPadded(t[0..m], 8 - m);
    LittleEndianPadded(t[m..n], 8 - (n - m));
    LittleEndianPadded(t[n..], 7 - (|t| - n));
    var c := Padded(t)[16..24];
    assert LittleEndian(c) == c[0] as int + 256 * LittleEndian(c[1..]);
  }

  lemma PaddedWords(t: seq<Byte>, m: nat, n: nat)
    requires |t| < 24 && m == (if |t| < 8 then |t| else 8) && n == if |t| < 16 then |t| else 16
    ensures Padded(t)[0..8] == t[0..m] + Zeros(8 - m)
    ensures Padded(t)[8..16] == t[m..n] + Zeros(8 - (n - m))
    ensures Padded(t)[16..24][1..] == t[n..] + Zeros(7 - (|t| - n)) && Padded(t)[16..24][0] == 0
  {
    var b := Padded(t);
    var w1, w2, w3 := b[0..8], b[8..16], b[16..24][1..];
    assert forall i | 0 <= i < 8 :: w1[i] == if i < |t| then t[i] else 0;
    assert forall i | 0 <= i < 8 :: w2[i] == if 8 + i < |t| then t[8 + i] else 0;
    assert forall i | 0 <= i < 7 :: w3[i] == if 16 + i < |t| then t[16 + i] else 0;
  }

  // ---------- different keys, different states ----------

  lemma AddInjective(x: Word, y: nat, z: nat)
    requires y < M && z < M && Add(x, y) == Add(x, z)
    ensures y == z
  {
  }

  lemma AbsorbInjective(s: Abc, k: Block, l: Block)
    requires Absorb(s, k) == Absorb(s, l)
    ensures k == l
  {
    EightBytesFit(k[0..8]); EightBytesFit(k[8..16]); EightBytesFit(k[16..24]);
    EightBytesFit(l[0..8]); EightBytesFit(l[8..16]); EightBytesFit(l[16..24]);
    AddInjective(s.a, LittleEndian(k[0..8]), LittleEndian(l[0..8]));
    AddInjective(s.b, LittleEndian(k[8..16]), LittleEndian(l[8..16]));
    AddInjective(s.c, LittleEndian(k[16..24]), LittleEndian(l[16..24]));
    LittleEndianInjective(k[0..8], l[0..8]);
    LittleEndianInjective(k[8..16], l[8..16]);
    LittleEndianInjective(k[16..24], l[16..24]);
    assert k == k[0..8] + k[8..16] + k[16..24] && l == l[0..8] + l[8..16] + l[16..24];
  }

  lemma PaddedInjective(t: seq<Byte>, u: seq<Byte>)
    requires |t| == |u| < 24 && Padded(t) == Padded(u)
    ensures t == u
  {
    forall i | 0 <= i < |t| ensures t[i] == u[i] {
      assert Padded(t)[if i < 16 then i else i + 1] == Padded(u)[if i < 16 then i else i + 1];
    }
  }

  lemma MixInjective(s: Abc, t: Abc)
    requires Mix(s) == Mix(t)
    ensures s == t
  {
    MixUndone(s);
    MixUndone(t);
  }

  lemma {:induction false} FoldJoins<S>(s: S, x: seq<Byte>, y: seq<Byte>, step: (S, Block) -> S)
    requires |x| % 24 == 0
    ensures Fold(s, x + y, step) == Fold(Fold(s, x, step), y, step) && Rest(x + y) == Rest(y)
    decreases |x|
  {
    if x == [] {
      assert x + y == y;
    } else {
      assert (x + y)[..24] == x[..24] && (x + y)[24..] == x[24..] + y;
      FoldJoins(step(s, x[..24]), x[24..], y, step);
    }
  }

  lemma FoldOne<S>(s: S, k: Block, step: (S, Block) -> S)
    ensures Fold(s, k, step) == step(s, k)
  {
    assert k[..24] == k && |k[24..]| == 0;
  }

  /** Steps that keep different states different do so over any number of blocks. */
  lemma {:induction false} FoldStaysDifferent<S(!new)>(s: S, t: S, k: seq<Byte>, step: (S, Block) -> S)
    requires s != t && forall s, t, k | s != t :: step(s, k) != step(t, k)
    ensures Fold(s, k, step) != Fold(t, k, step)
    decreases |k|
  {
    if |k| >= 24 { FoldStaysDifferent(step(s, k[..24]), step(t, k[..24]), k[24..], step); }
  }

  lemma DifferentBlocks(s: Abc, k: Block, l: Block)
    requires k != l
    ensures Step(s, k) != Step(s, l)
  {
    if Step(s, k) == Step(s, l) {
      MixInjective(Absorb(s, k), Absorb(s, l));
      AbsorbInjective(s, k, l);
    }
  }

  lemma DifferentStates(s: Abc, t: Abc, k: Block)
    requires s != t
    ensures Step(s, k) != Step(t, k)
  {
    if Step(s, k) == Step(t, k) {
      MixInjective(Absorb(s, k), Absorb(t, k));
      SameSum(s.a, t.a, LittleEndian(k[0..8]));
      SameSum(s.b, t.b, LittleEndian(k[8..16]));
      SameSum(s.c, t.c, LittleEndian(k[16..24]));
    }
  }

  lemma SameSum(x: Word, y: Word, z: nat)
    requires Add(x, z) == Add(y, z)
    ensures x == y
  {
  }

  lemma StayApart(s: Abc, t: Abc, k: seq<Byte>)
    requires s != t
    ensures After(s, k) != After(t, k)
  {
    forall s, t, k | s != t ensures Step(s, k) != Step(t, k) { DifferentStates(s, t, k); }
    FoldStaysDifferent(s, t, k, Step);
  }

  /** Keys that first differ within one block have different states after that block. */
  lemma FirstDifference(s: Abc, x: seq<Byte>, k: Block, l: Block)
    requires |x| % 24 == 0 && k != l
    ensures After(s, x + k) != After(s, x + l)
  {
    FoldJoins(s, x, k, Step);
    FoldJoins(s, x, l, Step);
    FoldOne(After(s, x), k, Step);
    FoldOne(After(s, x), l, Step);
    DifferentBlocks(After(s, x), k, l);
  }

  lemma FinishApart(s: Abc, t: Abc, rest: seq<Byte>, length: nat)
    requires |rest| < 24 && s != t
    ensures Finish(s, rest, length) != Finish(t, rest, length)
  {
    if s.c != t.c && Add(s.c, length) == Add(t.c, length) { SameSum(s.c, t.c, length); }
    DifferentStates(s.(c := Add(s.c, length)), t.(c := Add(t.c, length)), Padded(rest));
  }

  lemma FinalApart(initval: Word, m: seq<Byte>, n: seq<Byte>, y: seq<Byte>)
    requires |m| == |n| && |m| % 24 == 0 && After(Start(initval), m) != After(Start(initval), n)
    ensures Final(m + y, initval) != Final(n + y, initval)
  {
    var s, t := After(Start(initval), m), After(Start(initval), n);
    StayApart(s, t, y);
    FoldJoins(Start(initval), m, y, Step);
    FoldJoins(Start(initval), n, y, Step);
    FinishApart(After(s, y), After(t, y), Rest(y), |m + y|);
  }

  lemma NextMultiple(n: nat)
    requires n % 24 == 0
    ensures (n + 24) % 24 == 0
  {
  }

  /** Keys of one length that differ within one whole block only have different final states. */
  lemma OneBlockDiffers(initval: Word, x: seq<Byte>, k: Block, l: Block, y: seq<Byte>)
    requires |x| % 24 == 0 && k != l
    ensures Final(x + k + y, initval) != Final(x + l + y, initval)
  {
    FirstDifference(Start(initval), x, k, l);
    var m, n := x + k, x + l;
    assert |m| == |n| == |x| + 24;
    NextMultiple(|x|);
    FinalApart(initval, m, n, y);
  }

  /** The third word of the last block leaves its lowest byte to the length. */
  lemma LastWord(t: seq<Byte>)
    requires |t| < 24
    ensures var w := LittleEndian(Padded(t)[16..24]); w % 256 == 0 && w + 255 < M
  {
    var c := Padded(t)[16..24];
    assert LittleEndian(c) == c[0] as int + 256 * LittleEndian(c[1..]);
    LittleEndianFits(c[1..]);
    assert Power256(7) == 0x100_0000_0000_0000 by { assert Power256(4) == 0x1_0000_0000; }
  }

  lemma LengthAndWord(x: Word, m: nat, n: nat, v: nat, w: nat, base: nat)
    requires m < 24 && n < 24 && v % 256 == 0 && w % 256 == 0 && v + 255 < M && w + 255 < M
    requires Add(Add(x, base + m), v) == Add(Add(x, base + n), w)
    ensures m == n && v == w
  {
    AddTwice(x, base + m, v);
    AddTwice(x, base + n, w);
    AddTwice(x, base, m + v);
    AddTwice(x, base, n + w);
    AddInjective(Add(x, base), m + v, n + w);
    LowByte(m, n, v, w);
  }

  lemma LowByte(m: nat, n: nat, v: nat, w: nat)
    requires m < 24 && n < 24 && v % 256 == 0 && w % 256 == 0 && m + v == n + w
    ensures m == n && v == w
  {
  }

  /** The words of a last block determine what was left, and how much. */
  lemma TailIsRead(s: Abc, base: nat, t: seq<Byte>, u: seq<Byte>)
    requires |t| < 24 && |u| < 24
    requires Absorb(s.(c := Add(s.c, base + |t|)), Padded(t)) == Absorb(s.(c := Add(s.c, base + |u|)), Padded(u))
    ensures t == u
  {
    var k, l := Padded(t), Padded(u);
    LastWord(t);
    LastWord(u);
    LengthAndWord(s.c, |t|, |u|, LittleEndian(k[16..24]), LittleEndian(l[16..24]), base);
    AbsorbInjective(s.(c := Add(s.c, base + |t|)), k, l);
    PaddedInjective(t, u);
  }

  lemma FinishDiffers(s: Abc, base: nat, t: seq<Byte>, u: seq<Byte>)
    requires |t| < 24 && |u| < 24 && t != u
    ensures Finish(s, t, base + |t|) != Finish(s, u, base + |u|)
  {
    var x, y := Absorb(s.(c := Add(s.c, base + |t|)), Padded(t)), Absorb(s.(c := Add(s.c, base + |u|)), Padded(u));
    if x == y { TailIsRead(s, base, t, u); }
    if Mix(x) == Mix(y) { MixInjective(x, y); }
  }

  lemma FinalIs(initval: Word, x: seq<Byte>, t: seq<Byte>, s: Abc, n: nat)
    requires n == |x| && n % 24 == 0 && |t| < 24 && s == After(Start(initval), x)
    ensures Final(x + t, initval) == Finish(s, t, n + |t|)
  {
    FoldJoins(Start(initval), x, t, Step);
  }

  /** So have keys that differ in what is left after the same whole blocks, of whatever lengths. */
  lemma TailDiffers(initval: Word, x: seq<Byte>, t: seq<Byte>, u: seq<Byte>)
    requires |x| % 24 == 0 && |t| < 24 && |u| < 24 && t != u
    ensures Final(x + t, initval) != Final(x + u, initval)
  {
    var s, n := After(Start(initval), x), |x|;
    FinishDiffers(s, n, t, u);
    FinalIs(initval, x, t, s, n);
    FinalIs(initval, x, u, s, n);
  }

  // ---------- a known value ----------

  lemma XorBytes(s: seq<Byte>, t: seq<Byte>, r: seq<Byte>)
    requires |s| == |t| == |r| && forall i | 0 <= i < |s| :: r[i] == XorByte(s[i], t[i])
    ensures Xor(LittleEndian(s), LittleEndian(t)) == LittleEndian(r)
  {
    XorValues(s, t, r, LittleEndian(s), LittleEndian(t), LittleEndian(r));
  }

  lemma {:induction false} XorValues(s: seq<Byte>, t: seq<Byte>, r: seq<Byte>, x: nat, y: nat, z: nat)
    requires |s| == |t| == |r| && forall i | 0 <= i < |s| :: r[i] == XorByte(s[i], t[i])
    requires x == LittleEndian(s) && y == LittleEndian(t) && z == LittleEndian(r)
    ensures Xor(x, y) == z
  {
    if s != [] {
      XorValues(s[1..], t[1..], r[1..], x / 256, y / 256, z / 256);
      XorStep(x, y);
      assert x % 256 == s[0] && y % 256 == t[0] && z % 256 == r[0];
    }
  }

  lemma XorStep(x: nat, y: nat)
    ensures Xor(x, y) == XorByte(x % 256, y % 256) + 256 * Xor(x / 256, y / 256)
  {
    NoBits();
  }

  /** A word by its bytes, the lowest first. */
  function Octets(a: Byte, b: Byte, c: Byte, d: Byte, e: Byte, f: Byte, g: Byte, h: Byte): (w: Word)
    ensures w == LittleEndian([a, b, c, d, e, f, g, h])
  {
    var k: seq<Byte> := [a, b, c, d, e, f, g, h];
    LoadIsLittleEndian(k, 0);
    EightBytesFit(k);
    assert k[0..8] == k;
    a + 0x100 * b + 0x1_0000 * c + 0x100_0000 * d
    + 0x1_0000_0000 * e + 0x100_0000_0000 * f + 0x1_0000_0000_0000 * g + 0x100_0000_0000_0000 * h
  }

  /** The exclusive or of two words is that of their bytes. */
  lemma XorOf(a: Byte, b: Byte, c: Byte, d: Byte, e: Byte, f: Byte, g: Byte, h: Byte,
              a': Byte, b': Byte, c': Byte, d': Byte, e': Byte, f': Byte, g': Byte, h': Byte)
    ensures XorWord(Octets(a, b, c, d, e, f, g, h), Octets(a', b', c', d', e', f', g', h')) ==
              Octets(XorByte(a, a'), XorByte(b, b'), XorByte(c, c'), XorByte(d, d'),
                     XorByte(e, e'), XorByte(f, f'), XorByte(g, g'), XorByte(h, h'))
  {
    XorBytes([a, b, c, d, e, f, g, h], [a', b', c', d', e', f', g', h'],
             [XorByte(a, a'), XorByte(b, b'), XorByte(c, c'), XorByte(d, d'),
              XorByte(e, e'), XorByte(f, f'), XorByte(g, g'), XorByte(h, h')]);
  }

  lemma SubIs(x: Word, y: Word, z: Word, d: Word)
    requires d == x - y - z || d == x - y - z + M || d == x - y - z + 2 * M
    ensures Sub(Sub(x, y), z) == d
  {
  }

  lemma LeftIs(x: Word, n: nat, p: nat, q: nat, w: Word)
    requires Power2(n) == p && x * p == q * M + w
    ensures Left(x, n) == w
  {
  }

  lemma TurnIs(s: Abc, i: nat, j: nat, k: nat, pi: nat, pj: nat, pk: nat,
               d1: Word, w1: Word, d2: Word, w2: Word, d3: Word, w3: Word, q: nat, t: Abc)
    requires Power2(i) == pi > 0 && Power2(j) == pj && Power2(k) == pk > 0
    requires Sub(Sub(s.a, s.b), s.c) == d1 && s.c / pi == w1 && XorWord(d1, w1) == t.a
    requires Sub(Sub(s.b, s.c), t.a) == d2 && t.a * pj == q * M + w2 && XorWord(d2, w2) == t.b
    requires Sub(Sub(s.c, t.a), t.b) == d3 && t.b / pk == w3 && XorWord(d3, w3) == t.c
    ensures Turn(s, i, j, k) == t
  {
    LeftIs(t.a, j, pj, q, w2);
    assert MixA(s, i) == Abc(t.a, s.b, s.c);
    assert MixB(Abc(t.a, s.b, s.c), j) == Abc(t.a, t.b, s.c);
    assert MixC(Abc(t.a, t.b, s.c), k) == t;
  }

  lemma PowersOfShifts()
    ensures Power2(43) == 0x800_0000_0000 && Power2(9) == 0x200 && Power2(8) == 0x100
    ensures Power2(38) == 0x40_0000_0000 && Power2(23) == 0x80_0000 && Power2(5) == 0x20
    ensures Power2(35) == 0x8_0000_0000 && Power2(49) == 0x2_0000_0000_0000 && Power2(11) == 0x800
    ensures Power2(12) == 0x1000 && Power2(18) == 0x4_0000 && Power2(22) == 0x40_0000
  {
    assert Power2(8) == 0x100 && Power2(9) == 0x200 && Power2(11) == 0x800 && Power2(12) == 0x1000;
    Power2Adds(11, 12);
    Power2Adds(9, 9);
    Power2Adds(11, 11);
    Power2Adds(23, 12);
    Power2Adds(23, 23);
    Power2Adds(38, 5);
    Power2Adds(38, 11);
    Power2Adds(35, 3);
  }

  lemma GoldenTurn1()
    ensures Turn(Abc(0, 0, 0x9e3779b97f4a7c13), 43, 9, 8) ==
              Abc(0x61c8864680a64502, 0x910c8d014c853aeb, 0xabf36afcb352791c)
  {
    PowersOfShifts();
    GoldenXors1();
    SubIs(0, 0, 0x9e3779b97f4a7c13, 0x61c8864680b583ed);
    SubIs(0, 0x9e3779b97f4a7c13, 0x61c8864680a64502, 0xf3eeb);
    SubIs(0x9e3779b97f4a7c13, 0x61c8864680a64502, 0x910c8d014c853aeb, 0xab626671b21efc26);
    TurnIs(Abc(0, 0, 0x9e3779b97f4a7c13), 43, 9, 8,
           0x80000000000, 0x200, 0x100,
           0x61c8864680b583ed, 0x13c6ef, 0xf3eeb, 0x910c8d014c8a0400,
           0xab626671b21efc26, 0x910c8d014c853a, 0xc3,
           Abc(0x61c8864680a64502, 0x910c8d014c853aeb, 0xabf36afcb352791c));
  }

  lemma GoldenXors1()
    ensures XorWord(0x61c8864680b583ed, 0x13c6ef) == 0x61c8864680a64502
    ensures XorWord(0xf3eeb, 0x910c8d014c8a0400) == 0x910c8d014c853aeb
    ensures XorWord(0xab626671b21efc26, 0x910c8d014c853a) == 0xabf36afcb352791c
  {
    GoldenBytes1();
    XorOf(0xed, 0x83, 0xb5, 0x80, 0x46, 0x86, 0xc8, 0x61,
          0xef, 0xc6, 0x13, 0, 0, 0, 0, 0);
    XorOf(0xeb, 0x3e, 0xf, 0, 0, 0, 0, 0,
          0, 4, 0x8a, 0x4c, 1, 0x8d, 0xc, 0x91);
    XorOf(0x26, 0xfc, 0x1e, 0xb2, 0x71, 0x66, 0x62, 0xab,
          0x3a, 0x85, 0x4c, 1, 0x8d, 0xc, 0x91, 0);
  }

  lemma GoldenBytes1()
    ensures XorByte(0xed, 0xef) == 2 && XorByte(0x83, 0xc6) == 0x45 && XorByte(0xb5, 0x13) == 0xa6
    ensures XorByte(0x80, 0) == 0x80 && XorByte(0x46, 0) == 0x46 && XorByte(0x86, 0) == 0x86
    ensures XorByte(0xc8, 0) == 0xc8 && XorByte(0x61, 0) == 0x61
    ensures XorByte(0xeb, 0) == 0xeb && XorByte(0x3e, 4) == 0x3a && XorByte(0xf, 0x8a) == 0x85
    ensures XorByte(0, 0x4c) == 0x4c && XorByte(0, 1) == 1 && XorByte(0, 0x8d) == 0x8d
    ensures XorByte(0, 0xc) == 0xc && XorByte(0, 0x91) == 0x91
    ensures XorByte(0x26, 0x3a) == 0x1c && XorByte(0xfc, 0x85) == 0x79 && XorByte(0x1e, 0x4c) == 0x52
    ensures XorByte(0xb2, 1) == 0xb3 && XorByte(0x71, 0x8d) == 0xfc && XorByte(0x66, 0xc) == 0x6a
    ensures XorByte(0x62, 0x91) == 0xf3 && XorByte(0xab, 0) == 0xab
  {
  }

  lemma GoldenTurn2()
    ensures Turn(Abc(0x61c8864680a64502, 0x910c8d014c853aeb, 0xabf36afcb352791c), 38, 23, 5) ==
              Abc(0x24c88e4882615d50, 0xe411a312bed1647f, 0xa439b4b9e7e93c6e)
  {
    PowersOfShifts();
    GoldenXors2();
    SubIs(0x61c8864680a64502, 0x910c8d014c853aeb, 0xabf36afcb352791c, 0x24c88e4880ce90fb);
    SubIs(0x910c8d014c853aeb, 0xabf36afcb352791c, 0x24c88e4882615d50, 0xc05093bc16d1647f);
    SubIs(0xabf36afcb352791c, 0x24c88e4882615d50, 0xe411a312bed1647f, 0xa31939a1721fb74d);
    TurnIs(Abc(0x61c8864680a64502, 0x910c8d014c853aeb, 0xabf36afcb352791c), 38, 23, 5,
           0x4000000000, 0x800000, 0x20,
           0x24c88e4880ce90fb, 0x2afcdab, 0xc05093bc16d1647f, 0x244130aea8000000,
           0xa31939a1721fb74d, 0x7208d1895f68b23, 0x126447,
           Abc(0x24c88e4882615d50, 0xe411a312bed1647f, 0xa439b4b9e7e93c6e));
  }

  lemma GoldenXors2()
    ensures XorWord(0x24c88e4880ce90fb, 0x2afcdab) == 0x24c88e4882615d50
    ensures XorWord(0xc05093bc16d1647f, 0x244130aea8000000) == 0xe411a312bed1647f
    ensures XorWord(0xa31939a1721fb74d, 0x7208d1895f68b23) == 0xa439b4b9e7e93c6e
  {
    GoldenBytes2();
    XorOf(0xfb, 0x90, 0xce, 0x80, 0x48, 0x8e, 0xc8, 0x24,
          0xab, 0xcd, 0xaf, 2, 0, 0, 0, 0);
    XorOf(0x7f, 0x64, 0xd1, 0x16, 0xbc, 0x93, 0x50, 0xc0,
          0, 0, 0, 0xa8, 0xae, 0x30, 0x41, 0x24);
    XorOf(0x4d, 0xb7, 0x1f, 0x72, 0xa1, 0x39, 0x19, 0xa3,
          0x23, 0x8b, 0xf6, 0x95, 0x18, 0x8d, 0x20, 7);
  }

  lemma GoldenBytes2()
    ensures XorByte(0xfb, 0xab) == 0x50 && XorByte(0x90, 0xcd) == 0x5d && XorByte(0xce, 0xaf) == 0x61
    ensures XorByte(0x80, 2) == 0x82 && XorByte(0x48, 0) == 0x48 && XorByte(0x8e, 0) == 0x8e
    ensures XorByte(0xc8, 0) == 0xc8 && XorByte(0x24, 0) == 0x24
    ensures XorByte(0x7f, 0) == 0x7f && XorByte(0x64, 0) == 0x64 && XorByte(0xd1, 0) == 0xd1
    ensures XorByte(0x16, 0xa8) == 0xbe && XorByte(0xbc, 0xae) == 0x12 && XorByte(0x93, 0x30) == 0xa3
    ensures XorByte(0x50, 0x41) == 0x11 && XorByte(0xc0, 0x24) == 0xe4
    ensures XorByte(0x4d, 0x23) == 0x6e && XorByte(0xb7, 0x8b) == 0x3c && XorByte(0x1f, 0xf6) == 0xe9
    ensures XorByte(0x72, 0x95) == 0xe7 && XorByte(0xa1, 0x18) == 0xb9 && XorByte(0x39, 0x8d) == 0xb4
    ensures XorByte(0x19, 0x20) == 0x39 && XorByte(0xa3, 7) == 0xa4
  {
  }

  lemma GoldenTurn3()
    ensures Turn(Abc(0x24c88e4882615d50, 0xe411a312bed1647f, 0xa439b4b9e7e93c6e), 35, 49, 11) ==
              Abc(0x9c7d367bcf218af4, 0xb6b2b7dd07c69d1d, 0x511f1037eaa1ec8e)
  {
    PowersOfShifts();
    GoldenXors3();
    SubIs(0x24c88e4882615d50, 0xe411a312bed1647f, 0xa439b4b9e7e93c6e, 0x9c7d367bdba6bc63);
    SubIs(0xe411a312bed1647f, 0xa439b4b9e7e93c6e, 0x9c7d367bcf218af4, 0xa35ab7dd07c69d1d);
    SubIs(0xa439b4b9e7e93c6e, 0x9c7d367bcf218af4, 0xb6b2b7dd07c69d1d, 0x5109c6611101145d);
    TurnIs(Abc(0x24c88e4882615d50, 0xe411a312bed1647f, 0xa439b4b9e7e93c6e), 35, 49, 11,
           0x800000000, 0x2000000000000, 0x800,
           0x9c7d367bdba6bc63, 0x14873697, 0xa35ab7dd07c69d1d, 0x15e8000000000000,
           0x5109c6611101145d, 0x16d656fba0f8d3, 0x138fa6cf79e43,
           Abc(0x9c7d367bcf218af4, 0xb6b2b7dd07c69d1d, 0x511f1037eaa1ec8e));
  }

  lemma GoldenXors3()
    ensures XorWord(0x9c7d367bdba6bc63, 0x14873697) == 0x9c7d367bcf218af4
    ensures XorWord(0xa35ab7dd07c69d1d, 0x15e8000000000000) == 0xb6b2b7dd07c69d1d
    ensures XorWord(0x5109c6611101145d, 0x16d656fba0f8d3) == 0x511f1037eaa1ec8e
  {
    GoldenBytes3();
    XorOf(0x63, 0xbc, 0xa6, 0xdb, 0x7b, 0x36, 0x7d, 0x9c,
          0x97, 0x36, 0x87, 0x14, 0, 0, 0, 0);
    XorOf(0x1d, 0x9d, 0xc6, 7, 0xdd, 0xb7, 0x5a, 0xa3,
          0, 0, 0, 0, 0, 0, 0xe8, 0x15);
    XorOf(0x5d, 0x14, 1, 0x11, 0x61, 0xc6, 9, 0x51,
          0xd3, 0xf8, 0xa0, 0xfb, 0x56, 0xd6, 0x16, 0);
  }

  lemma GoldenBytes3()
    ensures XorByte(0x63, 0x97) == 0xf4 && XorByte(0xbc, 0x36) == 0x8a && XorByte(0xa6, 0x87) == 0x21
    ensures XorByte(0xdb, 0x14) == 0xcf && XorByte(0x7b, 0) == 0x7b && XorByte(0x36, 0) == 0x36
    ensures XorByte(0x7d, 0) == 0x7d && XorByte(0x9c, 0) == 0x9c
    ensures XorByte(0x1d, 0) == 0x1d && XorByte(0x9d, 0) == 0x9d && XorByte(0xc6, 0) == 0xc6
    ensures XorByte(7, 0) == 7 && XorByte(0xdd, 0) == 0xdd && XorByte(0xb7, 0) == 0xb7
    ensures XorByte(0x5a, 0xe8) == 0xb2 && XorByte(0xa3, 0x15) == 0xb6
    ensures XorByte(0x5d, 0xd3) == 0x8e && XorByte(0x14, 0xf8) == 0xec && XorByte(1, 0xa0) == 0xa1
    ensures XorByte(0x11, 0xfb) == 0xea && XorByte(0x61, 0x56) == 0x37 && XorByte(0xc6, 0xd6) == 0x10
    ensures XorByte(9, 0x16) == 0x1f && XorByte(0x51, 0) == 0x51
  {
  }

  lemma GoldenTurn4()
    ensures Turn(Abc(0x9c7d367bcf218af4, 0xb6b2b7dd07c69d1d, 0x511f1037eaa1ec8e), 12, 18, 22) ==
              Abc(0x94ae7f97dfc7ab57, 0x2eba571390010538, 0x8db63936938575bf)
  {
    PowersOfShifts();
    GoldenXors4();
    SubIs(0x9c7d367bcf218af4, 0xb6b2b7dd07c69d1d, 0x511f1037eaa1ec8e, 0x94ab6e66dcb90149);
    SubIs(0xb6b2b7dd07c69d1d, 0x511f1037eaa1ec8e, 0x94ae7f97dfc7ab57, 0xd0e5280d3d5d0538);
    SubIs(0x511f1037eaa1ec8e, 0x94ae7f97dfc7ab57, 0x2eba571390010538, 0x8db6398c7ad93bff);
    TurnIs(Abc(0x9c7d367bcf218af4, 0xb6b2b7dd07c69d1d, 0x511f1037eaa1ec8e), 12, 18, 22,
           0x1000, 0x40000, 0x400000,
           0x94ab6e66dcb90149, 0x511f1037eaa1e, 0xd0e5280d3d5d0538, 0xfe5f7f1ead5c0000,
           0x8db6398c7ad93bff, 0xbae95c4e40, 0x252b9,
           Abc(0x94ae7f97dfc7ab57, 0x2eba571390010538, 0x8db63936938575bf));
  }

  lemma GoldenXors4()
    ensures XorWord(0x94ab6e66dcb90149, 0x511f1037eaa1e) == 0x94ae7f97dfc7ab57
    ensures XorWord(0xd0e5280d3d5d0538, 0xfe5f7f1ead5c0000) == 0x2eba571390010538
    ensures XorWord(0x8db6398c7ad93bff, 0xbae95c4e40) == 0x8db63936938575bf
  {
    GoldenBytes4();
    XorOf(0x49, 1, 0xb9, 0xdc, 0x66, 0x6e, 0xab, 0x94,
          0x1e, 0xaa, 0x7e, 3, 0xf1, 0x11, 5, 0);
    XorOf(0x38, 5, 0x5d, 0x3d, 0xd, 0x28, 0xe5, 0xd0,
          0, 0, 0x5c, 0xad, 0x1e, 0x7f, 0x5f, 0xfe);
    XorOf(0xff, 0x3b, 0xd9, 0x7a, 0x8c, 0x39, 0xb6, 0x8d,
          0x40, 0x4e, 0x5c, 0xe9, 0xba, 0, 0, 0);
  }

  lemma GoldenBytes4()
    ensures XorByte(0x49, 0x1e) == 0x57 && XorByte(1, 0xaa) == 0xab && XorByte(0xb9, 0x7e) == 0xc7
    ensures XorByte(0xdc, 3) == 0xdf && XorByte(0x66, 0xf1) == 0x97 && XorByte(0x6e, 0x11) == 0x7f
    ensures XorByte(0xab, 5) == 0xae && XorByte(0x94, 0) == 0x94
    ensures XorByte(0x38, 0) == 0x38 && XorByte(5, 0) == 5 && XorByte(0x5d, 0x5c) == 1
    ensures XorByte(0x3d, 0xad) == 0x90 && XorByte(0xd, 0x1e) == 0x13 && XorByte(0x28, 0x7f) == 0x57
    ensures XorByte(0xe5, 0x5f) == 0xba && XorByte(0xd0, 0xfe) == 0x2e
    ensures XorByte(0xff, 0x40) == 0xbf && XorByte(0x3b, 0x4e) == 0x75 && XorByte(0xd9, 0x5c) == 0x85
    ensures XorByte(0x7a, 0xe9) == 0x93 && XorByte(0x8c, 0xba) == 0x36 && XorByte(0x39, 0) == 0x39
    ensures XorByte(0xb6, 0) == 0xb6 && XorByte(0x8d, 0) == 0x8d
  {
  }

  /** The hash of the empty key with the start value 0: the mix of the golden ratio alone. */
  lemma EmptyKey()
    ensures Final([], 0).c == 0x8db63936938575bf
  {
    GoldenTurn1();
    GoldenTurn2();
    GoldenTurn3();
    GoldenTurn4();
    NothingAbsorbed(Start(0));
  }

  /** The start value can be read off the state of the empty key. */
  lemma StartIsRead(initval: Word)
    ensures Unmix(Final([], initval)) == Abc(initval, initval, 0x9e37_79b9_7f4a_7c13)
  {
    var s := Start(initval);
    NothingAbsorbed(s);
    MixUndone(s);
  }

  lemma NothingAbsorbed(s: Abc)
    ensures Absorb(s.(c := Add(s.c, 0)), Padded([])) == s
  {
    var b := Padded([]);
    assert b[0..8] == Zeros(8) && b[8..16] == Zeros(8) && b[16..24] == Zeros(8);
    LittleEndianPadded([], 8);
    assert [] + Zeros(8) == Zeros(8);
  }
}
