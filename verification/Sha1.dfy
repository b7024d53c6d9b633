/** The server's SHA-1, against the standard. */
module Sha1 {
  import opened Common
  import opened Sha1Spec

  // ----- the macros -----

  /** On a little-endian machine the block's words are loaded with their bytes
      reversed, and blk0 turns them round. */
  function LittleEndian(b0: Byte, b1: Byte, b2: Byte, b3: Byte): Word {
    (b3 as bv32 << 24) | (b2 as bv32 << 16) | (b1 as bv32 << 8) | (b0 as bv32)
  }

  function Swapped(l: Word): Word {
    (Rotl(l, 24) & 0xFF00FF00) | (Rotl(l, 8) & 0x00FF00FF)
  }

  lemma SwappedIsBigEndian(b0: Byte, b1: Byte, b2: Byte, b3: Byte)
    ensures Swapped(LittleEndian(b0, b1, b2, b3)) == BigEndian(b0, b1, b2, b3)
  {
    hide Rotl;
    var l := LittleEndian(b0, b1, b2, b3);
    RotateTwentyFour(l);
    RotateEight(l);
    SwapBytes(b0 as bv32, b1 as bv32, b2 as bv32, b3 as bv32);
  }

  lemma RotateTwentyFour(l: Word)
    ensures Rotl(l, 24) == (l << 24) | (l >> 8)
  {
  }

  lemma RotateEight(l: Word)
    ensures Rotl(l, 8) == (l << 8) | (l >> 24)
  {
  }

  lemma SwapBytes(b0: Word, b1: Word, b2: Word, b3: Word)
    requires b0 < 256 && b1 < 256 && b2 < 256 && b3 < 256
    ensures var l := (b3 << 24) | (b2 << 16) | (b1 << 8) | b0;
      (((l << 24) | (l >> 8)) & 0xFF00FF00) | (((l << 8) | (l >> 24)) & 0x00FF00FF)
      == (b0 << 24) | (b1 << 16) | (b2 << 8) | b3
  {
  }

  /** The 16-word circular schedule when round i is about to start: the last 16
      schedule words below index i, each in the slot of its index modulo 16; slots
      not reached yet hold the word as loaded. */
  ghost predicate Circular(block: seq<Word>, raw: seq<Word>, m: seq<Word>, i: nat) {
    && |block| == |raw| == |m| == 16
    && (forall j :: 0 <= j < 16 ==> m[j] == Swapped(raw[j]))
    && (forall j :: i <= j < 16 ==> block[j] == raw[j])
    && (forall t: nat :: t < i <= t + 16 ==> block[t % 16] == Schedule(m, t))
  }

  lemma CircularStep(block: seq<Word>, raw: seq<Word>, m: seq<Word>, i: nat)
    requires Circular(block, raw, m, i)
    ensures Circular(block[i % 16 := Schedule(m, i)], raw, m, i + 1)
  {
    hide Swapped, Schedule;
    var after := block[i % 16 := Schedule(m, i)];
    forall t: nat | t < i + 1 <= t + 16
      ensures after[t % 16] == Schedule(m, t)
    {
      if t < i {
        OtherSlot(t, i);
      }
    }
    forall j | i + 1 <= j < 16
      ensures after[j] == raw[j]
    {
      assert i % 16 == i;
    }
  }

  lemma OtherSlot(t: nat, i: nat)
    requires t < i < t + 16
    ensures t % 16 != i % 16
  {
  }

  lemma SlotOf(i: nat, d: nat)
    requires 0 < d <= 16 <= i
    ensures (i - d) % 16 == (i + (16 - d)) % 16
  {
  }

  /** What the macros find in the slots they read. */
  lemma Slots(block: seq<Word>, raw: seq<Word>, m: seq<Word>, i: nat)
    requires Circular(block, raw, m, i)
    ensures i < 16 ==> Swapped(block[i]) == Schedule(m, i)
    ensures i >= 16 ==>
      && block[(i + 13) % 16] == Schedule(m, i - 3) && block[(i + 8) % 16] == Schedule(m, i - 8)
      && block[(i + 2) % 16] == Schedule(m, i - 14) && block[i % 16] == Schedule(m, i - 16)
  {
    hide Swapped, Mix;
    if i >= 16 {
      SlotOf(i, 3);
      SlotOf(i, 8);
      SlotOf(i, 14);
      SlotOf(i, 16);
      SlotsBehind(block, raw, m, i);
    }
  }

  lemma SlotsBehind(block: seq<Word>, raw: seq<Word>, m: seq<Word>, i: nat)
    requires Circular(block, raw, m, i) && i >= 16
    ensures block[(i - 3) % 16] == Schedule(m, i - 3) && block[(i - 8) % 16] == Schedule(m, i - 8)
    ensures block[(i - 14) % 16] == Schedule(m, i - 14) && block[(i - 16) % 16] == Schedule(m, i - 16)
  {
    hide Swapped, Schedule;
  }

  method Blk0(block: array<Word>, i: nat, ghost raw: seq<Word>, ghost m: seq<Word>) returns (w: Word)
    requires i < 16 && block.Length == 16 && |m| == 16 && Circular(block[..], raw, m, i)
    modifies block
    ensures Circular(block[..], raw, m, i + 1) && w == Schedule(m, i)
  {
    hide Swapped, Circular, Schedule;
    Slots(block[..], raw, m, i);
    CircularStep(block[..], raw, m, i);
    ghost var before := block[..];
    w := Swapped(block[i]);
    block[i] := w;
    assert block[..] == before[i % 16 := Schedule(m, i)];
  }

  method Blk(block: array<Word>, i: nat, ghost raw: seq<Word>, ghost m: seq<Word>) returns (w: Word)
    requires i >= 16 && block.Length == 16 && |m| == 16 && Circular(block[..], raw, m, i)
    modifies block
    ensures Circular(block[..], raw, m, i + 1) && w == Schedule(m, i)
  {
    hide Swapped, Circular, Mix;
    Slots(block[..], raw, m, i);
    CircularStep(block[..], raw, m, i);
    ghost var before := block[..];
    w := Mix(block[(i + 13) % 16], block[(i + 8) % 16], block[(i + 2) % 16], block[i % 16]);
    block[i % 16] := w;
    assert block[..] == before[i % 16 := Schedule(m, i)];
  }

  /** The macros' forms of the round functions. */
  function Choose(w: Word, x: Word, y: Word): Word {
    (w & (x ^ y)) ^ y
  }

  function Odd(w: Word, x: Word, y: Word): Word {
    w ^ x ^ y
  }

  function Majority(w: Word, x: Word, y: Word): Word {
    ((w | x) & y) | (w & x)
  }

  lemma ChooseForm(w: Word, x: Word, y: Word)
    ensures (w & (x ^ y)) ^ y == (w & x) ^ (!w & y)
  {
  }

  lemma MajorityForm(w: Word, x: Word, y: Word)
    ensures ((w | x) & y) | (w & x) == (w & x) ^ (w & y) ^ (x & y)
  {
  }

  lemma ChooseIsCh(w: Word, x: Word, y: Word)
    ensures Choose(w, x, y) == Ch(w, x, y)
  {
    ChooseForm(w, x, y);
  }

  lemma OddIsParity(w: Word, x: Word, y: Word)
    ensures Odd(w, x, y) == Parity(w, x, y)
  {
  }

  lemma MajorityIsMaj(w: Word, x: Word, y: Word)
    ensures Majority(w, x, y) == Maj(w, x, y)
  {
    MajorityForm(w, x, y);
  }

  lemma RoundFunctions(w: Word, x: Word, y: Word)
    ensures Choose(w, x, y) == Ch(w, x, y)
    ensures Odd(w, x, y) == Parity(w, x, y)
    ensures Majority(w, x, y) == Maj(w, x, y)
  {
    hide Choose, Ch, Odd, Parity, Majority, Maj;
    ChooseIsCh(w, x, y);
    OddIsParity(w, x, y);
    MajorityIsMaj(w, x, y);
  }

  /** What a macro adds up. */
  function MacroSum(z: Word, f: Word, w: Word, k: Word, r: Word): Word {
    z + (f + w + k + r)
  }

  lemma SumOrder(z: Word, f: Word, w: Word, k: Word, r: Word)
    ensures MacroSum(z, f, w, k, r) == Sum(r, f, z, k, w)
  {
  }

  /** A round leaves the five variables in rotated roles: what the standard calls
      (a, b, c, d, e) is (v, w, x, y, z) before and (z, v, w, x, y) after. */
  ghost predicate After(h: State, m: seq<Word>, i: nat, v: Word, w: Word, x: Word, y: Word, z: Word)
    requires |m| == 16
  {
    Rounds(h, m, i) == State(v, w, x, y, z)
  }

  lemma RoundDone(h: State, m: seq<Word>, i: nat, v: Word, w: Word, x: Word, y: Word, z: Word, f: Word, k: Word)
    requires |m| == 16 && After(h, m, i, v, w, x, y, z)
    requires f == F(i, w, x, y) && k == K(i)
    ensures After(h, m, i + 1, MacroSum(z, f, Schedule(m, i), k, Rotl(v, 5)), v, Rotl(w, 30), x, y)
  {
    hide MacroSum, Sum, Rotl, Schedule, F, K;
    SumOrder(z, f, Schedule(m, i), k, Rotl(v, 5));
  }

  method R0(block: array<Word>, v: Word, w: Word, x: Word, y: Word, z: Word, i: nat,
            ghost h: State, ghost raw: seq<Word>, ghost m: seq<Word>)
    returns (z': Word, w': Word)
    requires 0 <= i < 16 && block.Length == 16 && |m| == 16
    requires Circular(block[..], raw, m, i) && After(h, m, i, v, w, x, y, z)
    modifies block
    ensures Circular(block[..], raw, m, i + 1) && After(h, m, i + 1, z', v, w', x, y)
  {
    hide Circular, MacroSum, Rotl, Schedule, After, Ch, Parity, Maj, Choose, Odd, Majority;
    var s := Blk0(block, i, raw, m);
    RoundFunctions(w, x, y);
    z' := MacroSum(z, Choose(w, x, y), s, 0x5A827999, Rotl(v, 5));
    w' := Rotl(w, 30);
    RoundDone(h, m, i, v, w, x, y, z, Choose(w, x, y), 0x5A827999);
  }

  method R1(block: array<Word>, v: Word, w: Word, x: Word, y: Word, z: Word, i: nat,
            ghost h: State, ghost raw: seq<Word>, ghost m: seq<Word>)
    returns (z': Word, w': Word)
    requires 16 <= i < 20 && block.Length == 16 && |m| == 16
    requires Circular(block[..], raw, m, i) && After(h, m, i, v, w, x, y, z)
    modifies block
    ensures Circular(block[..], raw, m, i + 1) && After(h, m, i + 1, z', v, w', x, y)
  {
    hide Circular, MacroSum, Rotl, Schedule, After, Ch, Parity, Maj, Choose, Odd, Majority;
    var s := Blk(block, i, raw, m);
    RoundFunctions(w, x, y);
    z' := MacroSum(z, Choose(w, x, y), s, 0x5A827999, Rotl(v, 5));
    w' := Rotl(w, 30);
    RoundDone(h, m, i, v, w, x, y, z, Choose(w, x, y), 0x5A827999);
  }

  method R2(block: array<Word>, v: Word, w: Word, x: Word, y: Word, z: Word, i: nat,
            ghost h: State, ghost raw: seq<Word>, ghost m: seq<Word>)
    returns (z': Word, w': Word)
    requires 20 <= i < 40 && block.Length == 16 && |m| == 16
    requires Circular(block[..], raw, m, i) && After(h, m, i, v, w, x, y, z)
    modifies block
    ensures Circular(block[..], raw, m, i + 1) && After(h, m, i + 1, z', v, w', x, y)
  {
    hide Circular, MacroSum, Rotl, Schedule, After, Ch, Parity, Maj, Choose, Odd, Majority;
    var s := Blk(block, i, raw, m);
    RoundFunctions(w, x, y);
    z' := MacroSum(z, Odd(w, x, y), s, 0x6ED9EBA1, Rotl(v, 5));
    w' := Rotl(w, 30);
    RoundDone(h, m, i, v, w, x, y, z, Odd(w, x, y), 0x6ED9EBA1);
  }

  method R3(block: array<Word>, v: Word, w: Word, x: Word, y: Word, z: Word, i: nat,
            ghost h: State, ghost raw: seq<Word>, ghost m: seq<Word>)
    returns (z': Word, w': Word)
    requires 40 <= i < 60 && block.Length == 16 && |m| == 16
    requires Circular(block[..], raw, m, i) && After(h, m, i, v, w, x, y, z)
    modifies block
    ensures Circular(block[..], raw, m, i + 1) && After(h, m, i + 1, z', v, w', x, y)
  {
    hide Circular, MacroSum, Rotl, Schedule, After, Ch, Parity, Maj, Choose, Odd, Majority;
    var s := Blk(block, i, raw, m);
    RoundFunctions(w, x, y);
    z' := MacroSum(z, Majority(w, x, y), s, 0x8F1BBCDC, Rotl(v, 5));
    w' := Rotl(w, 30);
    RoundDone(h, m, i, v, w, x, y, z, Majority(w, x, y), 0x8F1BBCDC);
  }

  method R4(block: array<Word>, v: Word, w: Word, x: Word, y: Word, z: Word, i: nat,
            ghost h: State, ghost raw: seq<Word>, ghost m: seq<Word>)
    returns (z': Word, w': Word)
    requires 60 <= i < 80 && block.Length == 16 && |m| == 16
    requires Circular(block[..], raw, m, i) && After(h, m, i, v, w, x, y, z)
    modifies block
    ensures Circular(block[..], raw, m, i + 1) && After(h, m, i + 1, z', v, w', x, y)
  {
    hide Circular, MacroSum, Rotl, Schedule, After, Ch, Parity, Maj, Choose, Odd, Majority;
    var s := Blk(block, i, raw, m);
    RoundFunctions(w, x, y);
    z' := MacroSum(z, Odd(w, x, y), s, 0xCA62C1D6, Rotl(v, 5));
    w' := Rotl(w, 30);
    RoundDone(h, m, i, v, w, x, y, z, Odd(w, x, y), 0xCA62C1D6);
  }

  // ----- the 80 rounds, unrolled -----

  method Rounds0(block: array<Word>, ghost h: State, a0: Word, b0: Word, c0: Word, d0: Word, e0: Word,
                  ghost raw: seq<Word>, ghost m: seq<Word>)
    returns (a: Word, b: Word, c: Word, d: Word, e: Word)
    requires block.Length == 16 && |m| == 16
    requires Circular(block[..], raw, m, 0) && After(h, m, 0, a0, b0, c0, d0, e0)
    modifies block
    ensures Circular(block[..], raw, m, 20) && After(h, m, 20, a, b, c, d, e)
  {
    hide *;
    a, b, c, d, e := a0, b0, c0, d0, e0;
    e, b := R0(block, a, b, c, d, e, 0, h, raw, m);
    d, a := R0(block, e, a, b, c, d, 1, h, raw, m);
    c, e := R0(block, d, e, a, b, c, 2, h, raw, m);
    b, d := R0(block, c, d, e, a, b, 3, h, raw, m);
    a, c := R0(block, b, c, d, e, a, 4, h, raw, m);
    e, b := R0(block, a, b, c, d, e, 5, h, raw, m);
    d, a := R0(block, e, a, b, c, d, 6, h, raw, m);
    c, e := R0(block, d, e, a, b, c, 7, h, raw, m);
    b, d := R0(block, c, d, e, a, b, 8, h, raw, m);
    a, c := R0(block, b, c, d, e, a, 9, h, raw, m);
    e, b := R0(block, a, b, c, d, e, 10, h, raw, m);
    d, a := R0(block, e, a, b, c, d, 11, h, raw, m);
    c, e := R0(block, d, e, a, b, c, 12, h, raw, m);
    b, d := R0(block, c, d, e, a, b, 13, h, raw, m);
    a, c := R0(block, b, c, d, e, a, 14, h, raw, m);
    e, b := R0(block, a, b, c, d, e, 15, h, raw, m);
    d, a := R1(block, e, a, b, c, d, 16, h, raw, m);
    c, e := R1(block, d, e, a, b, c, 17, h, raw, m);
    b, d := R1(block, c, d, e, a, b, 18, h, raw, m);
    a, c := R1(block, b, c, d, e, a, 19, h, raw, m);
  }

  method Rounds20(block: array<Word>, ghost h: State, a0: Word, b0: Word, c0: Word, d0: Word, e0: Word,
                  ghost raw: seq<Word>, ghost m: seq<Word>)
    returns (a: Word, b: Word, c: Word, d: Word, e: Word)
    requires block.Length == 16 && |m| == 16
    requires Circular(block[..], raw, m, 20) && After(h, m, 20, a0, b0, c0, d0, e0)
    modifies block
    ensures Circular(block[..], raw, m, 40) && After(h, m, 40, a, b, c, d, e)
  {
    hide *;
    a, b, c, d, e := a0, b0, c0, d0, e0;
    e, b := R2(block, a, b, c, d, e, 20, h, raw, m);
    d, a := R2(block, e, a, b, c, d, 21, h, raw, m);
    c, e := R2(block, d, e, a, b, c, 22, h, raw, m);
    b, d := R2(block, c, d, e, a, b, 23, h, raw, m);
    a, c := R2(block, b, c, d, e, a, 24, h, raw, m);
    e, b := R2(block, a, b, c, d, e, 25, h, raw, m);
    d, a := R2(block, e, a, b, c, d, 26, h, raw, m);
    c, e := R2(block, d, e, a, b, c, 27, h, raw, m);
    b, d := R2(block, c, d, e, a, b, 28, h, raw, m);
    a, c := R2(block, b, c, d, e, a, 29, h, raw, m);
    e, b := R2(block, a, b, c, d, e, 30, h, raw, m);
    d, a := R2(block, e, a, b, c, d, 31, h, raw, m);
    c, e := R2(block, d, e, a, b, c, 32, h, raw, m);
    b, d := R2(block, c, d, e, a, b, 33, h, raw, m);
    a, c := R2(block, b, c, d, e, a, 34, h, raw, m);
    e, b := R2(block, a, b, c, d, e, 35, h, raw, m);
    d, a := R2(block, e, a, b, c, d, 36, h, raw, m);
    c, e := R2(block, d, e, a, b, c, 37, h, raw, m);
    b, d := R2(block, c, d, e, a, b, 38, h, raw, m);
    a, c := R2(block, b, c, d, e, a, 39, h, raw, m);
  }

  method Rounds40(block: array<Word>, ghost h: State, a0: Word, b0: Word, c0: Word, d0: Word, e0: Word,
                  ghost raw: seq<Word>, ghost m: seq<Word>)
    returns (a: Word, b: Word, c: Word, d: Word, e: Word)
    requires block.Length == 16 && |m| == 16
    requires Circular(block[..], raw, m, 40) && After(h, m, 40, a0, b0, c0, d0, e0)
    modifies block
    ensures Circular(block[..], raw, m, 60) && After(h, m, 60, a, b, c, d, e)
  {
    hide *;
    a, b, c, d, e := a0, b0, c0, d0, e0;
    e, b := R3(block, a, b, c, d, e, 40, h, raw, m);
    d, a := R3(block, e, a, b, c, d, 41, h, raw, m);
    c, e := R3(block, d, e, a, b, c, 42, h, raw, m);
    b, d := R3(block, c, d, e, a, b, 43, h, raw, m);
    a, c := R3(block, b, c, d, e, a, 44, h, raw, m);
    e, b := R3(block, a, b, c, d, e, 45, h, raw, m);
    d, a := R3(block, e, a, b, c, d, 46, h, raw, m);
    c, e := R3(block, d, e, a, b, c, 47, h, raw, m);
    b, d := R3(block, c, d, e, a, b, 48, h, raw, m);
    a, c := R3(block, b, c, d, e, a, 49, h, raw, m);
    e, b := R3(block, a, b, c, d, e, 50, h, raw, m);
    d, a := R3(block, e, a, b, c, d, 51, h, raw, m);
    c, e := R3(block, d, e, a, b, c, 52, h, raw, m);
    b, d := R3(block, c, d, e, a, b, 53, h, raw, m);
    a, c := R3(block, b, c, d, e, a, 54, h, raw, m);
    e, b := R3(block, a, b, c, d, e, 55, h, raw, m);
    d, a := R3(block, e, a, b, c, d, 56, h, raw, m);
    c, e := R3(block, d, e, a, b, c, 57, h, raw, m);
    b, d := R3(block, c, d, e, a, b, 58, h, raw, m);
    a, c := R3(block, b, c, d, e, a, 59, h, raw, m);
  }

  method Rounds60(block: array<Word>, ghost h: State, a0: Word, b0: Word, c0: Word, d0: Word, e0: Word,
                  ghost raw: seq<Word>, ghost m: seq<Word>)
    returns (a: Word, b: Word, c: Word, d: Word, e: Word)
    requires block.Length == 16 && |m| == 16
    requires Circular(block[..], raw, m, 60) && After(h, m, 60, a0, b0, c0, d0, e0)
    modifies block
    ensures Circular(block[..], raw, m, 80) && After(h, m, 80, a, b, c, d, e)
  {
    hide *;
    a, b, c, d, e := a0, b0, c0, d0, e0;
    e, b := R4(block, a, b, c, d, e, 60, h, raw, m);
    d, a := R4(block, e, a, b, c, d, 61, h, raw, m);
    c, e := R4(block, d, e, a, b, c, 62, h, raw, m);
    b, d := R4(block, c, d, e, a, b, 63, h, raw, m);
    a, c := R4(block, b, c, d, e, a, 64, h, raw, m);
    e, b := R4(block, a, b, c, d, e, 65, h, raw, m);
    d, a := R4(block, e, a, b, c, d, 66, h, raw, m);
    c, e := R4(block, d, e, a, b, c, 67, h, raw, m);
    b, d := R4(block, c, d, e, a, b, 68, h, raw, m);
    a, c := R4(block, b, c, d, e, a, 69, h, raw, m);
    e, b := R4(block, a, b, c, d, e, 70, h, raw, m);
    d, a := R4(block, e, a, b, c, d, 71, h, raw, m);
    c, e := R4(block, d, e, a, b, c, 72, h, raw, m);
    b, d := R4(block, c, d, e, a, b, 73, h, raw, m);
    a, c := R4(block, b, c, d, e, a, 74, h, raw, m);
    e, b := R4(block, a, b, c, d, e, 75, h, raw, m);
    d, a := R4(block, e, a, b, c, d, 76, h, raw, m);
    c, e := R4(block, d, e, a, b, c, 77, h, raw, m);
    b, d := R4(block, c, d, e, a, b, 78, h, raw, m);
    a, c := R4(block, b, c, d, e, a, 79, h, raw, m);
  }

  // ----- one block -----

  function Loaded(buffer: seq<Byte>): (raw: seq<Word>)
    requires |buffer| == 64
    ensures |raw| == 16
  {
    seq(16, i requires 0 <= i < 16 =>
      LittleEndian(buffer[4 * i], buffer[4 * i + 1], buffer[4 * i + 2], buffer[4 * i + 3]))
  }

  lemma LoadedWords(buffer: seq<Byte>)
    requires |buffer| == 64
    ensures Circular(Loaded(buffer), Loaded(buffer), Words(buffer), 0)
  {
    hide Swapped, LittleEndian, BigEndian;
    forall j | 0 <= j < 16
      ensures Words(buffer)[j] == Swapped(Loaded(buffer)[j])
    {
      SwappedIsBigEndian(buffer[4 * j], buffer[4 * j + 1], buffer[4 * j + 2], buffer[4 * j + 3]);
    }
  }

  ghost function Chaining(state: seq<Word>): State
    requires |state| == 5
  {
    State(state[0], state[1], state[2], state[3], state[4])
  }

  /** SHA1Transform: the unrolled rounds over a circular block compute the
      standard's compression with its 80-word schedule. */
  method Transform(state: array<Word>, buffer: seq<Byte>)
    requires state.Length == 5 && |buffer| == 64
    modifies state
    ensures Chaining(state[..]) == Compress(old(Chaining(state[..])), Words(buffer))
  {
    hide Circular, Words, Loaded, Swapped, Schedule, Round, After;
    ghost var h := Chaining(state[..]);
    ghost var raw, m := Loaded(buffer), Words(buffer);
    var words := Loaded(buffer);
    var block := new Word[16](i requires 0 <= i < 16 => words[i]);
    assert block[..] == raw;
    LoadedWords(buffer);
    var a, b, c, d, e := state[0], state[1], state[2], state[3], state[4];
    AfterNone(h, m);
    a, b, c, d, e := Rounds0(block, h, a, b, c, d, e, raw, m);
    a, b, c, d, e := Rounds20(block, h, a, b, c, d, e, raw, m);
    a, b, c, d, e := Rounds40(block, h, a, b, c, d, e, raw, m);
    a, b, c, d, e := Rounds60(block, h, a, b, c, d, e, raw, m);
    AddBack(state, h, m, a, b, c, d, e);
  }

  lemma AfterNone(h: State, m: seq<Word>)
    requires |m| == 16
    ensures After(h, m, 0, h.a, h.b, h.c, h.d, h.e)
  {
  }

  /** Add the working variables back into the state. */
  method AddBack(state: array<Word>, ghost h: State, ghost m: seq<Word>, a: Word, b: Word, c: Word, d: Word, e: Word)
    requires state.Length == 5 && |m| == 16 && Chaining(state[..]) == h && After(h, m, 80, a, b, c, d, e)
    modifies state
    ensures Chaining(state[..]) == Compress(h, m)
  {
    hide Rounds, Plus;
    PlusCommutes(a, h.a);
    PlusCommutes(b, h.b);
    PlusCommutes(c, h.c);
    PlusCommutes(d, h.d);
    PlusCommutes(e, h.e);
    state[0] := Plus(state[0], a);
    state[1] := Plus(state[1], b);
    state[2] := Plus(state[2], c);
    state[3] := Plus(state[3], d);
    state[4] := Plus(state[4], e);
  }

  lemma PlusCommutes(x: Word, y: Word)
    ensures Plus(x, y) == Plus(y, x)
  {
  }

  // ----- messages in pieces -----

  lemma {:induction false} HashAppend(h: State, x: seq<Byte>, y: seq<Byte>)
    requires |x| % 64 == 0
    ensures Hash(h, x + y) == Hash(Hash(h, x), y)
    decreases |x|
  {
    hide Compress, Words;
    if x == [] {
      assert x + y == y;
    } else {
      assert (x + y)[..64] == x[..64] && (x + y)[64..] == x[64..] + y;
      HashAppend(Compress(h, Words(x[..64])), x[64..], y);
    }
  }

  lemma HashBlock(h: State, x: seq<Byte>)
    requires |x| == 64
    ensures Hash(h, x) == Compress(h, Words(x))
  {
    hide Compress, Words;
    assert x[..64] == x;
  }

  const TWO32: nat := 0x1_0000_0000
  const TWO64: nat := 0x1_0000_0000_0000_0000

  lemma LowHalf(c0: nat, len: nat)
    requires c0 < TWO32
    ensures 8 * len == len / 0x2000_0000 * TWO32 + len * 8 % TWO32
    ensures var sum := c0 + len * 8 % TWO32; var lo := sum % TWO32;
      sum == (if lo < c0 then TWO32 else 0) + lo
  {
  }

  lemma HighHalf(x: nat, high: nat)
    ensures (x % TWO32 + high) % TWO32 == (x + high) % TWO32
  {
  }

  lemma Remainder64(q: nat, x: nat)
    requires x < TWO64
    ensures (q * TWO64 + x) % TWO64 == x
  {
  }

  lemma Carry(c0: nat, c1: nat, len: nat, n: nat)
    requires c0 < TWO32 && c1 < TWO32 && c1 * TWO32 + c0 == 8 * n % TWO64
    ensures var lo := (c0 + len * 8 % TWO32) % TWO32;
      var hi := (if lo < c0 then (c1 + 1) % TWO32 else c1) + len / 0x2000_0000;
      hi % TWO32 * TWO32 + lo == 8 * (n + len) % TWO64
  {
    var high, lo := len / 0x2000_0000, (c0 + len * 8 % TWO32) % TWO32;
    LowHalf(c0, len);
    var carry := if lo < c0 then 1 else 0;
    HighHalf(c1 + carry, high);
    var sum := c1 + carry + high;
    assert c1 * TWO32 + c0 + 8 * len == sum * TWO32 + lo;
    CarryOut(8 * n, c1 * TWO32 + c0, 8 * len, sum, lo);
  }

  /** Dropping the carry out of the high word is reduction modulo 2^64. */
  lemma CarryOut(bits: nat, low: nat, more: nat, sum: nat, lo: nat)
    requires low == bits % TWO64 && low + more == sum * TWO32 + lo && lo < TWO32
    ensures sum % TWO32 * TWO32 + lo == (bits + more) % TWO64
  {
    var q, k, top := bits / TWO64, sum / TWO32, sum % TWO32;
    assert bits == q * TWO64 + low;
    assert sum == k * TWO32 + top;
    assert bits + more == (q + k) * TWO64 + (top * TWO32 + lo);
    Remainder64(q + k, top * TWO32 + lo);
  }

  function Whole(n: nat): nat {
    n - n % 64
  }

  /** The two words count n bytes in bits, modulo 2^64. */
  ghost predicate Counts(c0: nat, c1: nat, n: nat) {
    c0 < TWO32 && c1 < TWO32 && c1 * TWO32 + c0 == 8 * n % TWO64
  }

  class Context {
    const state: array<Word>
    /** The bit count: low and high words. */
    var count0: nat
    var count1: nat
    const buffer: array<Byte>

    ghost predicate Valid()
      reads this
    {
      state.Length == 5 && buffer.Length == 64 && count0 < TWO32 && count1 < TWO32
    }

    /** The context stands for the message so far: its complete blocks have been
        hashed, the rest is in the buffer, and the count is its length in bits,
        modulo 2^64. */
    ghost predicate Absorbed(message: seq<Byte>)
      reads this, state, buffer
    {
      var n := Whole(|message|);
      && Valid()
      && Chaining(state[..]) == Hash(H0, message[..n])
      && buffer[..|message| % 64] == message[n..]
      && Counts(count0, count1, |message|)
    }

    constructor ()
      ensures Absorbed([]) && fresh(state) && fresh(buffer)
    {
      hide Hash;
      state := new Word[] [0x67452301, 0xEFCDAB89, 0x98BADCFE, 0x10325476, 0xC3D2E1F0];
      buffer := new Byte[64];
      count0, count1 := 0, 0;
      new;
      NothingHashed();
    }

    static lemma NothingHashed()
      ensures Hash(H0, []) == H0
    {
    }

    /** The two-word counter of SHA1Update. */
    method Count(len: nat, ghost n: nat)
      requires Counts(count0, count1, n)
      modifies this`count0, this`count1
      ensures Counts(count0, count1, n + len)
    {
      Carry(count0, count1, len, n);
      var j := count0;
      count0 := (count0 + len * 8 % TWO32) % TWO32;
      if count0 < j {
        count1 := (count1 + 1) % TWO32;
      }
      count1 := (count1 + len / 0x2000_0000) % TWO32;
    }

    /** The first p bytes have been hashed. */
    ghost predicate Hashed(message: seq<Byte>, p: nat)
      reads state
    {
      state.Length == 5 && p <= |message| && p % 64 == 0 && Chaining(state[..]) == Hash(H0, message[..p])
    }

    /** SHA1Update.  The index arithmetic is that of 32-bit words; false stands for
        the case in which the last memcpy would run past the buffer. */
    method Update(data: seq<Byte>, ghost message: seq<Byte>) returns (ok: bool)
      requires Absorbed(message) && |data| < TWO32
      modifies this`count0, this`count1, state, buffer
      ensures ok <==> |message| % 64 + |data| < TWO32
      ensures ok ==> Absorbed(message + data)
    {
      hide Hash, Compress, Words, Counts, Chaining, Whole;
      var len := |data|;
      var j := count0 / 8 % 64;
      BufferIndex(count0, count1, |message|);
      Splits(|message|, len);
      Count(len, |message|);
      CountedWords(count0, count1, |message| + len);
      var i := 0;
      if (j + len) % TWO32 > 63 {
        SumDoesNotWrap(j, len);
        i := FirstBlock(j, data, message);
        i := MoreBlocks(i, j, data, message);
        j := 0;
      }
      if j + (len - i) > 64 {
        return false;
      }
      if i == 0 {
        assert (message + data)[..Whole(|message|)] == message[..Whole(|message|)];
      }
      Fill(j, data[i..], if i == 0 then Whole(|message|) else |message| + i, message + data);
      ok := true;
    }

    /** When j + len exceeds 63 as a 32-bit sum, it has not wrapped. */
    static lemma SumDoesNotWrap(j: nat, len: nat)
      requires j < 64 && len < TWO32 && (j + len) % TWO32 > 63
      ensures j + len < TWO32 && j + len > 63
    {
    }

    /** The last memcpy: what does not fill a block stays in the buffer. */
    method Fill(j: nat, rest: seq<Byte>, ghost p: nat, ghost all: seq<Byte>)
      requires Valid() && j + |rest| < 64 && Hashed(all, p) && buffer[..j] + rest == all[p..]
      requires Counts(count0, count1, |all|)
      modifies buffer
      ensures Absorbed(all)
    {
      hide Hash, Compress, Words, Counts, Chaining;
      CopyIn(j, rest);
      WholeReached(|all|, p);
    }

    static lemma CountedWords(c0: nat, c1: nat, n: nat)
      requires Counts(c0, c1, n)
      ensures c0 < TWO32 && c1 < TWO32
    {
    }

    static lemma Splits(n: nat, len: nat)
      ensures Whole(n) <= n < Whole(n) + 64 && Whole(n) % 64 == 0 && n % 64 == n - Whole(n)
      ensures n % 64 + len < 64 ==> Whole(n + len) == Whole(n) && (n + len) % 64 == n % 64 + len
    {
    }

    static lemma WholeReached(n: nat, p: nat)
      requires p <= n < p + 64 && p % 64 == 0
      ensures Whole(n) == p && n % 64 == n - p
    {
    }

    /** Fill up the buffer and hash it. */
    method FirstBlock(j: nat, data: seq<Byte>, ghost message: seq<Byte>) returns (i: nat)
      requires buffer.Length == 64 && j == |message| % 64 && j + |data| > 63
      requires Hashed(message, Whole(|message|)) && buffer[..j] == message[Whole(|message|)..]
      modifies state, buffer
      ensures 0 < i <= |data| && Hashed(message + data, |message| + i)
    {
      hide Hash, Compress, Words, Chaining;
      i := 64 - j;
      CopyIn(j, data[..i]);
      ghost var n, all := Whole(|message|), message + data;
      SliceAcross(message, data, n, i);
      assert buffer[..] == buffer[..j + i];
      HashOne(buffer[..], n, all);
    }

    method HashOne(block: seq<Byte>, ghost p: nat, ghost all: seq<Byte>)
      requires Hashed(all, p) && p + 64 <= |all| && block == all[p..p + 64]
      modifies state
      ensures Hashed(all, p + 64)
    {
      hide Hash, Compress, Words, Chaining;
      HashExtend(all, p);
      Transform(state, block);
    }

    lemma WholeBlocks(message: seq<Byte>, p: nat)
      requires Hashed(message, p)
      ensures p <= |message| && p % 64 == 0
    {
    }

    /** Hash complete blocks straight from the data. */
    method MoreBlocks(start: nat, j: nat, data: seq<Byte>, ghost message: seq<Byte>) returns (i: nat)
      requires 0 < start <= |data| && Hashed(message + data, |message| + start)
      requires j == |message| % 64 && j + |data| < TWO32
      modifies state
      ensures start <= i <= |data| && |data| - i < 64 && Hashed(message + data, |message| + i)
    {
      hide Hashed;
      WholeBlocks(message + data, |message| + start);
      i := start;
      while (i + 63) % TWO32 < |data|
        invariant start <= i <= |data| && Hashed(message + data, |message| + i)
        invariant i + 63 < TWO32 && (|message| + i) % 64 == 0
        decreases |data| - i
      {
        SliceInside(message, data, i, i + 64);
        HashOne(data[i..i + 64], |message| + i, message + data);
        i := i + 64;
        WholeBlocks(message + data, |message| + i);
        BlockEnds(|message|, j, i, |data|);
      }
    }

    /** At the end of a block, the next one does not wrap a 32-bit index. */
    static lemma BlockEnds(n: nat, j: nat, i: nat, len: nat)
      requires j == n % 64 && (n + i) % 64 == 0 && i <= len && j + len < TWO32
      ensures i + 63 < TWO32
    {
      assert (j + i) % 64 == 0;
    }

    /** memcpy into the buffer at j. */
    method CopyIn(j: nat, bytes: seq<Byte>)
      requires buffer.Length == 64 && j + |bytes| <= 64
      modifies buffer
      ensures buffer[..j + |bytes|] == old(buffer[..j]) + bytes
    {
      forall k | 0 <= k < |bytes| {
        buffer[j + k] := bytes[k];
      }
    }

    /** SHA1Final: whatever the pieces the message came in, the digest is that of
        the standard, for messages of fewer than 2^64 bits. */
    method Final(ghost message: seq<Byte>) returns (digest: seq<Byte>)
      requires Absorbed(message) && 8 * |message| < TWO64
      modifies this`count0, this`count1, state, buffer
      ensures digest == Sha1(message)
    {
      hide Absorbed, Zeros, LengthBytes, StateByte, Hash;
      var finalcount := FinalCount(message);
      var ok := Update([0x80], message);
      ghost var n, z := |message|, 0;
      assert message + [0x80] + Zeros(0) == message + [0x80];
      var more := NotPadded(message + [0x80] + Zeros(0));
      PaddingStops(n, 0);
      while more
        invariant z <= ZeroCount(n) && (more <==> z < ZeroCount(n))
        invariant Absorbed(message + [0x80] + Zeros(z))
        decreases ZeroCount(n) - z
      {
        ok := Update([0], message + [0x80] + Zeros(z));
        ZerosGrow(z);
        assert message + [0x80] + Zeros(z) + [0] == message + [0x80] + Zeros(z + 1);
        z := z + 1;
        more := NotPadded(message + [0x80] + Zeros(z));
        PaddingStops(n, z);
      }
      ok := Update(finalcount, message + [0x80] + Zeros(z));
      PadIsWhole(message);
      digest := Digest(Pad(message));
    }

    /** The loop test (count[0] & 504) != 448. */
    method NotPadded(ghost message: seq<Byte>) returns (b: bool)
      requires Absorbed(message)
      ensures b <==> |message| % 64 != 56
    {
      BufferIndex(count0, count1, |message|);
      b := count0 / 8 % 64 != 56;
    }

    /** The count as eight big-endian bytes. */
    method FinalCount(ghost message: seq<Byte>) returns (bytes: seq<Byte>)
      requires Absorbed(message) && 8 * |message| < TWO64
      ensures bytes == LengthBytes(8 * |message|)
    {
      hide Hash, Chaining, Numbered, Pow256, LengthBytes, CountByte, Counts, Whole;
      var c0, c1 := count0, count1;
      CountsExactly(c0, c1, |message|);
      CountBytes(c0, c1);
      bytes := seq(8, i requires 0 <= i < 8 => CountByte(c0, c1, i));
    }

    method Digest(ghost message: seq<Byte>) returns (digest: seq<Byte>)
      requires Absorbed(message) && |message| % 64 == 0
      ensures digest == seq(20, i requires 0 <= i < 20 => StateByte(Hash(H0, message), i))
    {
      hide Hash, WordByte, Counts;
      assert message[..Whole(|message|)] == message;
      var words := state[..];
      digest := seq(20, i requires 0 <= i < 20 => WordByte(words[i / 4], i % 4));
    }
  }

  lemma SliceAcross(x: seq<Byte>, y: seq<Byte>, n: nat, i: nat)
    requires n <= |x| && i <= |y|
    ensures x[n..] + y[..i] == (x + y)[n..|x| + i] && (x + y)[..n] == x[..n]
  {
  }

  lemma SliceInside(x: seq<Byte>, y: seq<Byte>, i: nat, k: nat)
    requires i <= k <= |y|
    ensures y[i..k] == (x + y)[|x| + i..|x| + k]
  {
  }

  lemma HashExtend(all: seq<Byte>, p: nat)
    requires p % 64 == 0 && p + 64 <= |all|
    ensures Hash(H0, all[..p + 64]) == Compress(Hash(H0, all[..p]), Words(all[p..p + 64]))
  {
    hide Compress, Words, Hash;
    assert all[..p + 64] == all[..p] + all[p..p + 64];
    HashAppend(H0, all[..p], all[p..p + 64]);
    HashBlock(Hash(H0, all[..p]), all[p..p + 64]);
  }

  lemma BufferIndex(c0: nat, c1: nat, n: nat)
    requires Counts(c0, c1, n)
    ensures c0 / 8 % 64 == n % 64
  {
    var x := 8 * n / TWO64 * TWO32 + c1;
    assert 8 * n == x * TWO32 + c0;
    assert c0 == 8 * (n - 0x2000_0000 * x);
    assert c0 / 8 == n - 64 * (0x80_0000 * x);
    SameRemainder(c0 / 8, n, 0x80_0000 * x);
  }

  lemma SameRemainder(a: nat, b: nat, y: nat)
    requires b == a + 64 * y
    ensures a % 64 == b % 64
  {
  }

  /** The padding loop stops after the fewest zeros. */
  lemma PaddingStops(n: nat, z: nat)
    requires z <= ZeroCount(n)
    ensures (n + 1 + z) % 64 != 56 <==> z < ZeroCount(n)
  {
    var r, q := n % 64, n / 64;
    assert n + 1 + z == 64 * q + (r + 1 + z);
    if r + 1 + z >= 64 {
      assert n + 1 + z == 64 * (q + 1) + (r + 1 + z - 64);
    }
  }

  lemma PadSize(n: nat)
    ensures (n + 1 + ZeroCount(n) + 8) % 64 == 0
  {
    var q := n / 64;
    assert n + 1 + ZeroCount(n) + 8 == 64 * q + (if n % 64 <= 55 then 64 else 128);
  }

  /** The padded message is a whole number of blocks. */
  lemma PadIsWhole(message: seq<Byte>)
    ensures |Pad(message)| % 64 == 0
  {
    hide Zeros, LengthBytes, ZeroCount;
    PadSize(|message|);
  }

  lemma ZerosGrow(z: nat)
    ensures Zeros(z) + [0] == Zeros(z + 1)
  {
  }

  /** Byte i of the two-word count: a shift by a multiple of eight and a mask. */
  function CountByte(c0: nat, c1: nat, i: nat): Byte
    requires i < 8
  {
    Numbered((if i >= 4 then c0 else c1) / Pow256(3 - i % 4) % 256)
  }

  lemma CountBytes(c0: nat, c1: nat)
    requires c0 < TWO32 && c1 < TWO32
    ensures seq(8, i requires 0 <= i < 8 => CountByte(c0, c1, i)) == LengthBytes(c1 * TWO32 + c0)
  {
    hide Numbered, Pow256;
    forall i | 0 <= i < 8
      ensures CountByte(c0, c1, i) == LengthBytes(c1 * TWO32 + c0)[i]
    {
      SameByte(c0, c1, i);
    }
  }

  lemma SameByte(c0: nat, c1: nat, i: nat)
    requires c0 < TWO32 && i < 8
    ensures (c1 * TWO32 + c0) / Pow256(7 - i) % 256 == (if i >= 4 then c0 else c1) / Pow256(3 - i % 4) % 256
  {
    hide Pow256;
    Powers();
    if i < 4 {
      HighWord(c0, c1);
      if i == 0 {} else if i == 1 {} else if i == 2 {} else {}
    } else {
      LowWord(c0, c1);
      if i == 4 {} else if i == 5 {} else if i == 6 {} else {}
    }
  }

  lemma Powers()
    ensures Pow256(0) == 1 && Pow256(1) == 256 && Pow256(2) == 65536 && Pow256(3) == 16777216
    ensures Pow256(4) == TWO32 && Pow256(5) == 256 * TWO32 && Pow256(6) == 65536 * TWO32 && Pow256(7) == 16777216 * TWO32
  {
  }

  lemma CountsExactly(c0: nat, c1: nat, n: nat)
    requires Counts(c0, c1, n) && 8 * n < TWO64
    ensures c0 < TWO32 && c1 < TWO32 && c1 * TWO32 + c0 == 8 * n
  {
  }

  lemma HighWord(c0: nat, c1: nat)
    requires c0 < TWO32
    ensures (c1 * TWO32 + c0) / TWO32 == c1
    ensures (c1 * TWO32 + c0) / (256 * TWO32) == c1 / 256
    ensures (c1 * TWO32 + c0) / (65536 * TWO32) == c1 / 65536
    ensures (c1 * TWO32 + c0) / (16777216 * TWO32) == c1 / 16777216
  {
  }

  lemma LowWord(c0: nat, c1: nat)
    ensures (c1 * TWO32 + c0) % 256 == c0 % 256
    ensures (c1 * TWO32 + c0) / 256 % 256 == c0 / 256 % 256
    ensures (c1 * TWO32 + c0) / 65536 % 256 == c0 / 65536 % 256
    ensures (c1 * TWO32 + c0) / 16777216 % 256 == c0 / 16777216 % 256
  {
    assert (c1 * TWO32 + c0) / 256 == c1 * 16777216 + c0 / 256;
    assert (c1 * TWO32 + c0) / 65536 == c1 * 65536 + c0 / 65536;
    assert (c1 * TWO32 + c0) / 16777216 == c1 * 256 + c0 / 16777216;
    LowByte(c1 * 16777216, c0);
    LowByte(c1 * 65536, c0 / 256);
    LowByte(c1 * 256, c0 / 65536);
    LowByte(c1, c0 / 16777216);
  }

  lemma LowByte(y: nat, x: nat)
    ensures (y * 256 + x) % 256 == x % 256
  {
  }

  function Flatten(pieces: seq<seq<Byte>>): seq<Byte> {
    if pieces == [] then [] else Flatten(pieces[..|pieces| - 1]) + pieces[|pieces| - 1]
  }

  /** No update wraps the 32-bit sum of its length and the bytes left in the
      buffer by the pieces before it. */
  predicate NoneWraps(pieces: seq<seq<Byte>>) {
    forall i :: 0 <= i < |pieces| ==> |Flatten(pieces[..i])| % 64 + |pieces[i]| < TWO32
  }

  /** SHA1Init, SHA1Update on each piece, SHA1Final: only the concatenation of the
      pieces matters, and there is a digest exactly when no update wraps. */
  method HashPieces(pieces: seq<seq<Byte>>) returns (digest: Option<seq<Byte>>)
    requires forall i :: 0 <= i < |pieces| ==> |pieces[i]| < TWO32
    requires 8 * |Flatten(pieces)| < TWO64
    ensures digest == if NoneWraps(pieces) then Some(Sha1(Flatten(pieces))) else None
  {
    hide Sha1Spec.Sha1, Context.Absorbed, Flatten;
    var c := new Context();
    NothingFlat(pieces[..0]);
    var i := 0;
    while i < |pieces|
      invariant i <= |pieces| && c.Absorbed(Flatten(pieces[..i]))
      invariant fresh(c) && fresh(c.state) && fresh(c.buffer)
      invariant forall m :: 0 <= m < i ==> |Flatten(pieces[..m])| % 64 + |pieces[m]| < TWO32
    {
      var ok := c.Update(pieces[i], Flatten(pieces[..i]));
      if !ok {
        return None;
      }
      FlattenMore(pieces, i);
      i := i + 1;
    }
    assert pieces[..i] == pieces;
    var d := c.Final(Flatten(pieces));
    digest := Some(d);
  }

  lemma NothingFlat(pieces: seq<seq<Byte>>)
    ensures pieces == [] ==> Flatten(pieces) == []
  {
  }

  lemma FlattenMore(pieces: seq<seq<Byte>>, i: nat)
    requires i < |pieces|
    ensures Flatten(pieces[..i + 1]) == Flatten(pieces[..i]) + pieces[i]
  {
    assert pieces[..i + 1][..i] == pieces[..i];
  }

  /** An update that wraps: one byte is in the buffer and 2^32 - 1 follow. */
  lemma LongestPieceWraps(pieces: seq<seq<Byte>>)
    requires |pieces| == 2 && |pieces[0]| == 1 && |pieces[1]| == TWO32 - 1
    ensures !NoneWraps(pieces)
  {
    assert pieces[..1][..0] == [] && pieces[..1][0] == pieces[0];
    assert Flatten(pieces[..1]) == Flatten(pieces[..1][..0]) + pieces[0];
    assert |Flatten(pieces[..1])| == 1;
    assert |Flatten(pieces[..1])| % 64 + |pieces[1]| >= TWO32;
  }
}
