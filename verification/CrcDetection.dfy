/** Which damage a receiver that checks the trailer of a packet notices. */
module CrcDetection {
  import opened Bytes
  import opened Checksums
  import opened Polynomials
  import opened CrcLaws

  lemma ReduceLinear(r: Bits, s: Bits, x: bool, y: bool)
    requires |r| == 16 && |s| == 16
    ensures Reduce(Add(r, s) + [x != y]) == Add(Reduce(r + [x]), Reduce(s + [y]))
  {
    hide Reduce, Generator;
    ReduceCells(r + [x]);
    ReduceCells(s + [y]);
    ReduceCells(Add(r, s) + [x != y]);
  }

  /** The remainder of a sum is the sum of the remainders. */
  lemma {:induction false} RemainderLinear(a: Bits, b: Bits)
    requires |a| == |b|
    ensures Remainder(Add(a, b)) == Add(Remainder(a), Remainder(b))
    decreases |a|
  {
    hide Remainder, Reduce;
    if a == [] {
      NothingLeft();
      assert Add(a, b) == [] && Add(Zeros(16), Zeros(16)) == Zeros(16);
    } else {
      var n := |a| - 1;
      var c, d := a[..n], b[..n];
      RemainderLinear(c, d);
      RemainderAppend(c, a[n]);
      RemainderAppend(d, b[n]);
      RemainderAppend(Add(c, d), a[n] != b[n]);
      ReduceLinear(Remainder(c), Remainder(d), a[n], b[n]);
      assert a == c + [a[n]] && b == d + [b[n]] && Add(a, b) == Add(c, d) + [a[n] != b[n]];
    }
  }

  lemma NothingLeft()
    ensures Remainder([]) == Zeros(16) && [] == Zeros(0)
  {
    assert Pad16([]) == Zeros(16);
  }

  /** The check passes exactly for multiples of the generator. */
  lemma PassesIff(s: seq<byte>)
    ensures Fold(UpdateCrc16, 0, s) == 0 <==> Remainder(BitsOf(s)) == Zeros(16)
  {
    hide Remainder, BitsOf, Fold, UpdateCrc16, Value;
    RegisterIsRemainder(s);
    ZeroValue(16);
    if Value(Remainder(BitsOf(s))) == 0 { ValueInjective(Remainder(BitsOf(s)), Zeros(16)); }
  }

  /** Damage to a good packet passes unnoticed exactly when what has been changed is a multiple of the
      generator itself. */
  lemma UnnoticedIff(p: seq<byte>, q: seq<byte>)
    requires |p| == |q| && Fold(UpdateCrc16, 0, p) == 0
    ensures Fold(UpdateCrc16, 0, q) == 0 <==> Remainder(Add(BitsOf(p), BitsOf(q))) == Zeros(16)
  {
    hide Remainder, BitsOf, Fold, UpdateCrc16;
    PassesIff(p);
    PassesIff(q);
    RemainderLinear(BitsOf(p), BitsOf(q));
    var r := Remainder(BitsOf(q));
    assert forall i :: 0 <= i < 16 ==> Add(Zeros(16), r)[i] == r[i];
    assert Add(Zeros(16), r) == r;
  }

  // ---- bursts ----

  lemma ShiftKeeps(r: Bits)
    requires |r| == 16 && r != Zeros(16)
    ensures Reduce(r + [false]) != Zeros(16)
  {
    var m := r + [false];
    hide Reduce;
    ReduceCells(m);
    if r[0] {
      assert Reduce(m)[15] == (m[16] != Generator()[16]);
    } else {
      var k := SetBit(r);
      assert Reduce(m)[k - 1] == m[k];
    }
  }

  lemma SetBit(r: Bits) returns (k: nat)
    requires r != Zeros(|r|)
    ensures k < |r| && r[k]
  {
    k :| k < |r| && r[k];
  }

  /** Leading zeros are nothing. */
  lemma {:induction false} LeadingZeros(a: nat, b: Bits)
    requires |b| <= 16
    ensures Remainder(Zeros(a) + b) == Pad16(b)
    decreases |b|
  {
    hide Remainder, Reduce;
    if b == [] {
      AllZeros(a);
      assert Zeros(a) + b == Zeros(a) && Pad16(b) == Zeros(16);
    } else {
      var c, t := b[..|b| - 1], b[|b| - 1];
      LeadingZeros(a, c);
      RemainderAppend(Zeros(a) + c, t);
      assert Zeros(a) + b == Zeros(a) + c + [t];
      ShortReduce(c, t);
      assert b == c + [t];
    }
  }

  lemma ShortReduce(c: Bits, t: bool)
    requires |c| < 16
    ensures Reduce(Pad16(c) + [t]) == Pad16(c + [t])
  {
    hide Reduce;
    var m := Pad16(c) + [t];
    ReduceCells(m);
    assert !m[0];
    assert forall i :: 0 <= i < 16 ==> m[i + 1] == Pad16(c + [t])[i];
  }

  lemma {:induction false} AllZeros(a: nat)
    ensures Remainder(Zeros(a)) == Zeros(16)
    decreases a
  {
    hide Remainder, Reduce;
    if a == 0 {
      NothingLeft();
    } else {
      AllZeros(a - 1);
      RemainderAppend(Zeros(a - 1), false);
      assert Zeros(a) == Zeros(a - 1) + [false];
      ReduceCells(Zeros(16) + [false]);
      assert Reduce(Zeros(16) + [false]) == Zeros(16);
    }
  }

  lemma {:induction false} BurstRemains(a: nat, b: Bits, c: nat)
    requires |b| <= 16 && b != Zeros(|b|)
    ensures Remainder(Zeros(a) + b + Zeros(c)) != Zeros(16)
    decreases c
  {
    hide Remainder, Reduce;
    var m := Zeros(a) + b + Zeros(c);
    if c == 0 {
      assert m == Zeros(a) + b;
      LeadingZeros(a, b);
      var k := SetBit(b);
      assert Pad16(b)[16 - |b| + k];
    } else {
      var m1 := Zeros(a) + b + Zeros(c - 1);
      BurstRemains(a, b, c - 1);
      assert m == m1 + [false] by { assert Zeros(c) == Zeros(c - 1) + [false]; }
      RemainderAppend(m1, false);
      ShiftKeeps(Remainder(m1));
    }
  }

  /** The packets differ, and only in the sixteen bits from bit `at` on. */
  ghost predicate BurstAt(p: seq<byte>, q: seq<byte>, at: nat) {
    && |p| == |q| && p != q
    && forall i :: 0 <= i < 8 * |p| && !(at <= i < at + 16) ==> BitsOf(p)[i] == BitsOf(q)[i]
  }

  /** Any damage within sixteen bits, wherever they lie, is noticed. */
  lemma BurstNoticed(p: seq<byte>, q: seq<byte>, at: nat)
    requires Fold(UpdateCrc16, 0, p) == 0 && BurstAt(p, q, at)
    ensures Fold(UpdateCrc16, 0, q) != 0
  {
    hide Remainder, BitsOf, Fold, UpdateCrc16;
    UnnoticedIff(p, q);
    Differ(p, q);
    OneBurst(Add(BitsOf(p), BitsOf(q)), at);
  }

  lemma OneBurst(e: Bits, at: nat)
    requires e != Zeros(|e|) && forall i :: 0 <= i < |e| && !(at <= i < at + 16) ==> !e[i]
    ensures Remainder(e) != Zeros(16)
  {
    hide Remainder;
    var n := |e|;
    var from, to := if at < n then at else n, if at + 16 < n then at + 16 else n;
    var b := e[from..to];
    Parts(e, from, to);
    BurstRemains(from, b, n - to);
  }

  lemma Parts(e: Bits, from: nat, to: nat)
    requires from <= to <= |e| && forall i :: 0 <= i < |e| && !(from <= i < to) ==> !e[i]
    ensures e == Zeros(from) + e[from..to] + Zeros(|e| - to)
    ensures e != Zeros(|e|) ==> e[from..to] != Zeros(to - from)
  {
    if e != Zeros(|e|) {
      var k := SetBit(e);
      assert e[from..to][k - from];
    }
  }

  lemma Differ(p: seq<byte>, q: seq<byte>)
    requires |p| == |q| && p != q
    ensures Add(BitsOf(p), BitsOf(q)) != Zeros(8 * |p|)
  {
    hide BitsOf;
    if BitsOf(p) == BitsOf(q) {
      BitsInjective(p, q);
    } else {
      var k :| 0 <= k < 8 * |p| && BitsOf(p)[k] != BitsOf(q)[k];
      assert Add(BitsOf(p), BitsOf(q))[k];
    }
  }

  /** Seventeen bits can pass: those of the generator do, at any place. */
  lemma {:induction false} GeneratorPasses(a: nat, c: nat)
    ensures Remainder(Zeros(a) + Generator() + Zeros(c)) == Zeros(16)
    decreases c
  {
    hide Remainder, Reduce;
    var g := Generator();
    var m := Zeros(a) + g + Zeros(c);
    if c == 0 {
      LeadingZeros(a, g[..16]);
      RemainderAppend(Zeros(a) + g[..16], g[16]);
      assert m == Zeros(a) + g[..16] + [g[16]];
      assert Pad16(g[..16]) + [g[16]] == g;
      ReduceCells(g);
      assert Reduce(g) == Zeros(16);
    } else {
      var m1 := Zeros(a) + g + Zeros(c - 1);
      GeneratorPasses(a, c - 1);
      assert m == m1 + [false] by { assert Zeros(c) == Zeros(c - 1) + [false]; }
      RemainderAppend(m1, false);
      ReduceCells(Zeros(16) + [false]);
      assert Reduce(Zeros(16) + [false]) == Zeros(16);
    }
  }
}
