/**
 * The RC6 block transform (rc6.c:157-199): a block of four words, a round
 * key table of 2r+4 words, and r rounds mixing in the quadratic
 * f(x) = (x(2x+1)) <<< lg w of the second and fourth words.
 */
module Rc6 {
  import opened Words
  import opened ByteOrder
  import opened RoundCount

  datatype Block = Block(a: Word, b: Word, c: Word, d: Word)

  /** rotl(x * (2*x+1), LGW) on 64-bit words (rc6.c:166-167, rc6.c:189-190). */
  function F(x: Word): Word
  {
    RotL(Mul(x, (2 * x + 1) % M), LGW)
  }

  /**
   * One round of encryption keyed by k0, k1 (rc6.c:166-170), ending with
   * the shift of the four words (A,B,C,D) := (B,C,D,A).
   */
  function Round(x: Block, k0: Word, k1: Word): Block
  {
    var t := F(x.b);
    var u := F(x.d);
    var a := Add(RotL(Xor(x.a, t), Amt(u)), k0);
    var c := Add(RotL(Xor(x.c, u), Amt(t)), k1);
    Block(x.b, c, x.d, a)
  }

  /**
   * One round of decryption keyed by k0, k1 (rc6.c:188-192): shift the
   * words back, then recompute t and u from the unchanged B and D.
   */
  function Unround(y: Block, k0: Word, k1: Word): Block
  {
    var q := Block(y.d, y.a, y.b, y.c);
    var u := F(q.d);
    var t := F(q.b);
    var c := Xor(RotR(Sub(q.c, k1), Amt(t)), u);
    var a := Xor(RotR(Sub(q.a, k0), Amt(u)), t);
    Block(a, q.b, c, q.d)
  }

  lemma UnroundRound(x: Block, k0: Word, k1: Word)
    ensures Unround(Round(x, k0, k1), k0, k1) == x
  {
    var t, u := F(x.b), F(x.d);
    var a0 := RotL(Xor(x.a, t), Amt(u));
    var c0 := RotL(Xor(x.c, u), Amt(t));
    AddSub(c0, k1);
    RotRRotL(Xor(x.c, u), Amt(t));
    XorInvolution(x.c, u);
    AddSub(a0, k0);
    RotRRotL(Xor(x.a, t), Amt(u));
    XorInvolution(x.a, t);
  }

  lemma RoundUnround(y: Block, k0: Word, k1: Word)
    ensures Round(Unround(y, k0, k1), k0, k1) == y
  {
    var u, t := F(y.c), F(y.a);
    var c0 := RotR(Sub(y.b, k1), Amt(t));
    var a0 := RotR(Sub(y.d, k0), Amt(u));
    XorInvolution(c0, u);
    RotLRotR(Sub(y.b, k1), Amt(t));
    SubAdd(y.b, k1);
    XorInvolution(a0, t);
    RotLRotR(Sub(y.d, k0), Amt(u));
    SubAdd(y.d, k0);
  }

  /** n rounds of encryption, round m keyed by S[lo + 2m] and S[lo + 2m + 1]. */
  function EncRounds(S: seq<Word>, lo: nat, n: nat, x: Block): Block
    requires lo + 2 * n <= |S|
  {
    if n == 0 then x
    else Round(EncRounds(S, lo, n - 1, x), S[lo + 2 * n - 2], S[lo + 2 * n - 1])
  }

  /** One more round, keyed at cursor s, on top of n rounds. */
  lemma EncStep(S: seq<Word>, lo: nat, n: nat, s: nat, x: Block, y: Block, y': Block)
    requires s == lo + 2 * n && s + 2 <= |S|
    requires y == EncRounds(S, lo, n, x) && y' == Round(y, S[s], S[s + 1])
    ensures y' == EncRounds(S, lo, n + 1, x)
  {
  }

  /** Undo rounds n-1 down to 0 of EncRounds(S, lo, n, _). */
  function DecRounds(S: seq<Word>, lo: nat, n: nat, y: Block): Block
    requires lo + 2 * n <= |S|
  {
    if n == 0 then y
    else DecRounds(S, lo, n - 1, Unround(y, S[lo + 2 * n - 2], S[lo + 2 * n - 1]))
  }

  /** Undoing one more round, keyed below and at cursor s, off the top. */
  lemma DecStep(S: seq<Word>, lo: nat, k: nat, s: int, x: Block, x': Block)
    requires k >= 1 && s == lo + 2 * k - 1 && s < |S|
    requires x' == Unround(x, S[s - 1], S[s])
    ensures DecRounds(S, lo, k - 1, x') == DecRounds(S, lo, k, x)
  {
  }

  lemma {:induction false} DecEncRounds(S: seq<Word>, lo: nat, n: nat, x: Block)
    requires lo + 2 * n <= |S|
    ensures DecRounds(S, lo, n, EncRounds(S, lo, n, x)) == x
  {
    if n > 0 {
      UnroundRound(EncRounds(S, lo, n - 1, x), S[lo + 2 * n - 2], S[lo + 2 * n - 1]);
      DecEncRounds(S, lo, n - 1, x);
    }
  }

  lemma {:induction false} EncDecRounds(S: seq<Word>, lo: nat, n: nat, y: Block)
    requires lo + 2 * n <= |S|
    ensures EncRounds(S, lo, n, DecRounds(S, lo, n, y)) == y
  {
    if n > 0 {
      var y' := Unround(y, S[lo + 2 * n - 2], S[lo + 2 * n - 1]);
      EncDecRounds(S, lo, n - 1, y');
      RoundUnround(y, S[lo + 2 * n - 2], S[lo + 2 * n - 1]);
    }
  }

  /**
   * rc6_encrypt on words (rc6.c:157-177): whiten B and D with S[0], S[1],
   * run the rounds, then whiten A and C with the two words after them.
   */
  function Encrypt(S: seq<Word>, r: nat, x: Block): (y: Block)
    requires |S| >= 2 * r + 4
  {
    var n := Rounds(r);
    var z := EncRounds(S, 2, n, Block(x.a, Add(x.b, S[0]), x.c, Add(x.d, S[1])));
    Block(Add(z.a, S[2 + 2 * n]), z.b, Add(z.c, S[3 + 2 * n]), z.d)
  }

  /**
   * rc6_decrypt on words (rc6.c:179-199): the cursor starts at S[2r+3],
   * undoes the final whitening, walks down through the rounds and ends on
   * the two words that whitened B and D.
   */
  function Decrypt(S: seq<Word>, r: nat, y: Block): (x: Block)
    requires |S| >= 2 * r + 4
  {
    var lo := 2 * r + 2 - 2 * Rounds(r);
    var z := DecRounds(S, lo, Rounds(r), Block(Sub(y.a, S[2 * r + 2]), y.b, Sub(y.c, S[2 * r + 3]), y.d));
    Block(z.a, Sub(z.b, S[lo - 2]), z.c, Sub(z.d, S[lo - 1]))
  }

  /** With fewer than four rounds requested, both loops run zero times: only the whitening remains. */
  lemma EncryptFewRounds(S: seq<Word>, r: nat, x: Block)
    requires r < 4 && |S| >= 2 * r + 4
    ensures Encrypt(S, r, x) == Block(Add(x.a, S[2]), Add(x.b, S[0]), Add(x.c, S[3]), Add(x.d, S[1]))
  {
    assert Rounds(r) == 0;
  }

  lemma DecryptFewRounds(S: seq<Word>, r: nat, y: Block)
    requires r < 4 && |S| >= 2 * r + 4
    ensures Decrypt(S, r, y) == Block(Sub(y.a, S[2 * r + 2]), Sub(y.b, S[2 * r]),
                                      Sub(y.c, S[2 * r + 3]), Sub(y.d, S[2 * r + 1]))
  {
    assert Rounds(r) == 0;
  }

  /**
   * For 0 < r < 4 no rounds run, yet decryption unwhitens with the words
   * from 2r on while encryption whitened with those from 0 on, so the two
   * transforms do not invert each other for such r.
   */
  lemma NoRoundTripOffMultiple(r: nat)
    requires 0 < r < 4
    ensures Decrypt([1, 0, 0, 0, 0, 0, 0, 0, 0, 0], r,
                    Encrypt([1, 0, 0, 0, 0, 0, 0, 0, 0, 0], r, Block(0, 0, 0, 0))) != Block(0, 0, 0, 0)
  {
    var S: seq<Word> := [1, 0, 0, 0, 0, 0, 0, 0, 0, 0];
    EncryptFewRounds(S, r, Block(0, 0, 0, 0));
    DecryptFewRounds(S, r, Block(0, 1, 0, 0));
  }

  lemma DecryptEncrypt(S: seq<Word>, r: nat, x: Block)
    requires r % 4 == 0 && |S| >= 2 * r + 4
    ensures Decrypt(S, r, Encrypt(S, r, x)) == x
  {
    var pre := Block(x.a, Add(x.b, S[0]), x.c, Add(x.d, S[1]));
    var z := EncRounds(S, 2, r, pre);
    var y := Encrypt(S, r, x);
    assert Rounds(r) == r;
    assert y == Block(Add(z.a, S[2 * r + 2]), z.b, Add(z.c, S[2 * r + 3]), z.d);
    assert Block(Sub(y.a, S[2 * r + 2]), y.b, Sub(y.c, S[2 * r + 3]), y.d) == z by {
      AddSub(z.a, S[2 * r + 2]);
      AddSub(z.c, S[2 * r + 3]);
    }
    assert DecRounds(S, 2, r, z) == pre by {
      DecEncRounds(S, 2, r, pre);
    }
    AddSub(x.b, S[0]);
    AddSub(x.d, S[1]);
  }

  lemma EncryptDecrypt(S: seq<Word>, r: nat, y: Block)
    requires r % 4 == 0 && |S| >= 2 * r + 4
    ensures Encrypt(S, r, Decrypt(S, r, y)) == y
  {
    var pre := Block(Sub(y.a, S[2 * r + 2]), y.b, Sub(y.c, S[2 * r + 3]), y.d);
    var z := DecRounds(S, 2, r, pre);
    var x := Decrypt(S, r, y);
    assert x == Block(z.a, Sub(z.b, S[0]), z.c, Sub(z.d, S[1]));
    assert Block(x.a, Add(x.b, S[0]), x.c, Add(x.d, S[1])) == z by {
      SubAdd(z.b, S[0]);
      SubAdd(z.d, S[1]);
    }
    assert EncRounds(S, 2, r, z) == pre by {
      EncDecRounds(S, 2, r, pre);
    }
    SubAdd(y.a, S[2 * r + 2]);
    SubAdd(y.c, S[2 * r + 3]);
  }

  /** The four little-endian words of a 32-byte block. */
  function FromWire(m: seq<byte>): Block
    requires |m| == 4 * BPW
  {
    Block(WordOf(m[..BPW]), WordOf(m[BPW..2 * BPW]), WordOf(m[2 * BPW..3 * BPW]), WordOf(m[3 * BPW..]))
  }

  function ToWire(x: Block): (m: seq<byte>)
    ensures |m| == 4 * BPW
  {
    BytesOf(x.a) + BytesOf(x.b) + BytesOf(x.c) + BytesOf(x.d)
  }

  lemma WireRoundTrip(m: seq<byte>, x: Block)
    requires |m| == 4 * BPW
    ensures ToWire(FromWire(m)) == m
    ensures FromWire(ToWire(x)) == x
  {
    assert m == m[..BPW] + m[BPW..2 * BPW] + m[2 * BPW..3 * BPW] + m[3 * BPW..];
    var t := ToWire(x);
    assert t[..BPW] == BytesOf(x.a);
    assert t[BPW..2 * BPW] == BytesOf(x.b);
    assert t[2 * BPW..3 * BPW] == BytesOf(x.c);
    assert t[3 * BPW..] == BytesOf(x.d);
  }

  /** Encryption of a block of wire bytes, as every host computes it. */
  function EncryptWire(S: seq<Word>, r: nat, pt: seq<byte>): (ct: seq<byte>)
    requires |S| >= 2 * r + 4 && |pt| == 4 * BPW
    ensures |ct| == 4 * BPW
  {
    ToWire(Encrypt(S, r, FromWire(pt)))
  }

  function DecryptWire(S: seq<Word>, r: nat, ct: seq<byte>): (pt: seq<byte>)
    requires |S| >= 2 * r + 4 && |ct| == 4 * BPW
    ensures |pt| == 4 * BPW
  {
    ToWire(Decrypt(S, r, FromWire(ct)))
  }

  lemma DecryptEncryptWire(S: seq<Word>, r: nat, pt: seq<byte>)
    requires r % 4 == 0 && |S| >= 2 * r + 4 && |pt| == 4 * BPW
    ensures DecryptWire(S, r, EncryptWire(S, r, pt)) == pt
  {
    var x := FromWire(pt);
    var y := Encrypt(S, r, x);
    WireRoundTrip(pt, y);
    DecryptEncrypt(S, r, x);
    WireRoundTrip(pt, x);
  }

  /**
   * The body of rc6_encrypt's inner loop (rc6.c:166-170) as the C statements
   * perform it on the four registers: one round, keyed by the two table
   * words at the cursor, which moves past them. If the registers hold k
   * rounds of x0, they then hold k + 1.
   */
  method EncryptRound(S: seq<Word>, s0: nat, x: Block, ghost x0: Block, ghost k: nat)
      returns (y: Block, s: nat)
    requires s0 + 2 <= |S| && s0 == 2 + 2 * k
    requires x == EncRounds(S, 2, k, x0)
    ensures s == s0 + 2
    ensures y == EncRounds(S, 2, k + 1, x0)
  {
    var A, B, C, D := x.a, x.b, x.c, x.d;
    s := s0;
    var t := F(B);
    var u := F(D);
    A := Add(RotL(Xor(A, t), Amt(u)), S[s]);
    s := s + 1;
    C := Add(RotL(Xor(C, u), Amt(t)), S[s]);
    s := s + 1;
    t := A; A := B; B := C; C := D; D := t;
    y := Block(A, B, C, D);
    EncStep(S, 2, k, s0, x0, x, y);
  }

  /**
   * The inner loop of rc6_encrypt (rc6.c:165-171): four rounds. Ghost k0
   * counts the rounds already applied to the original block x.
   */
  method EncryptPass(S: seq<Word>, s0: nat, y0: Block, ghost x: Block, ghost k0: nat)
      returns (y: Block, s: nat)
    requires s0 == 2 + 2 * k0 && s0 + 8 <= |S|
    requires y0 == EncRounds(S, 2, k0, x)
    ensures s == 2 + 2 * (k0 + 4)
    ensures y == EncRounds(S, 2, k0 + 4, x)
  {
    y, s := y0, s0;
    var j := 0;
    ghost var k := k0;
    while j < 4
      invariant 0 <= j <= 4 && k == k0 + j
      invariant s == 2 + 2 * k
      invariant y == EncRounds(S, 2, k, x)
    {
      y, s := EncryptRound(S, s, y, x, k);
      j := j + 1;
      k := k + 1;
    }
    assert k == k0 + 4;
  }

  /** The outer loop of rc6_encrypt (rc6.c:164-172): r/4 passes. */
  method EncryptLoops(S: seq<Word>, r: nat, x: Block) returns (y: Block, s: nat)
    requires |S| >= 2 * r + 4
    ensures s == 2 + 2 * Rounds(r)
    ensures y == EncRounds(S, 2, Rounds(r), x)
  {
    y := x;
    s := 2;
    var i := 0;
    ghost var k := 0;
    while i < r / 4
      invariant 0 <= i <= r / 4 && k == 4 * i
      invariant s == 2 + 2 * k
      invariant y == EncRounds(S, 2, k, x)
    {
      y, s := EncryptPass(S, s, y, x, k);
      i := i + 1;
      k := k + 4;
    }
    assert k == Rounds(r);
  }

  /**
   * The body of rc6_decrypt's inner loop (rc6.c:188-192) on the four
   * registers: one round undone, keyed by the table word below the cursor
   * and the one at it; the cursor moves below both. Of the k rounds above
   * lo still to undo, k - 1 then remain.
   */
  method DecryptRound(S: seq<Word>, s0: int, y: Block, ghost lo: nat, ghost k: nat)
      returns (x: Block, s: int)
    requires k >= 1 && s0 == lo + 2 * k - 1 && s0 < |S|
    ensures s == s0 - 2
    ensures DecRounds(S, lo, k - 1, x) == DecRounds(S, lo, k, y)
  {
    var A, B, C, D := y.a, y.b, y.c, y.d;
    s := s0;
    var t := D; D := C; C := B; B := A; A := t;
    var u := F(D);
    t := F(B);
    C := Xor(RotR(Sub(C, S[s]), Amt(t)), u);
    s := s - 1;
    A := Xor(RotR(Sub(A, S[s]), Amt(u)), t);
    s := s - 1;
    x := Block(A, B, C, D);
    DecStep(S, lo, k, s0, y, x);
  }

  /**
   * The inner loop of rc6_decrypt (rc6.c:187-193): four rounds undone. Ghost
   * k0 counts the rounds still to undo above lo.
   */
  method DecryptPass(S: seq<Word>, s0: int, x0: Block, ghost lo: nat, ghost k0: nat)
      returns (x: Block, s: int)
    requires s0 == lo + 2 * k0 - 1 && 4 <= k0 && lo + 2 * k0 <= |S|
    ensures s == lo + 2 * (k0 - 4) - 1
    ensures DecRounds(S, lo, k0 - 4, x) == DecRounds(S, lo, k0, x0)
  {
    x, s := x0, s0;
    var j := 0;
    ghost var k := k0;
    while j < 4
      invariant 0 <= j <= 4 && k == k0 - j
      invariant s == lo + 2 * k - 1
      invariant DecRounds(S, lo, k, x) == DecRounds(S, lo, k0, x0)
    {
      x, s := DecryptRound(S, s, x, lo, k);
      j := j + 1;
      k := k - 1;
    }
    assert k == k0 - 4;
  }

  /**
   * The outer loop of rc6_decrypt (rc6.c:186-194): the cursor starts at
   * S[2r+1] and on return rests on the word that unwhitens D.
   */
  method DecryptLoops(S: seq<Word>, r: nat, y: Block) returns (x: Block, s: int)
    requires |S| >= 2 * r + 4
    ensures s == 2 * r + 1 - 2 * Rounds(r) && 1 <= s
    ensures x == DecRounds(S, s + 1, Rounds(r), y)
  {
    ghost var n := Rounds(r);
    ghost var lo := 2 * r + 2 - 2 * n;
    x := y;
    s := 2 * r + 1;
    var i := 0;
    ghost var k := n;
    while i < r / 4
      invariant 0 <= i <= r / 4 && k == n - 4 * i
      invariant s == lo + 2 * k - 1
      invariant DecRounds(S, lo, k, x) == DecRounds(S, lo, n, y)
    {
      x, s := DecryptPass(S, s, x, lo, k);
      i := i + 1;
      k := k - 4;
    }
    assert k == 0 && s + 1 == lo;
  }

  /** The four words of a block as the host loads them (rc6.c:160-163, rc6.c:182-185). */
  method LoadBlock(host: Endian, m: seq<byte>) returns (x: Block)
    requires |m| == 4 * BPW
    ensures x == FromWire(m)
  {
    var m0, m1, m2, m3 := m[..BPW], m[BPW..2 * BPW], m[2 * BPW..3 * BPW], m[3 * BPW..];
    LoadLE(host, m0);
    LoadLE(host, m1);
    LoadLE(host, m2);
    LoadLE(host, m3);
    x := Block(BSwapIfBE(host, Load(host, m0)), BSwapIfBE(host, Load(host, m1)),
               BSwapIfBE(host, Load(host, m2)), BSwapIfBE(host, Load(host, m3)));
  }

  /** The four words of a block as the host stores them (rc6.c:173-176, rc6.c:195-198). */
  method StoreBlock(host: Endian, x: Block) returns (m: seq<byte>)
    ensures m == ToWire(x)
  {
    StoreLE(host, x.a);
    StoreLE(host, x.b);
    StoreLE(host, x.c);
    StoreLE(host, x.d);
    m := Store(host, BSwapIfBE(host, x.a)) + Store(host, BSwapIfBE(host, x.b))
       + Store(host, BSwapIfBE(host, x.c)) + Store(host, BSwapIfBE(host, x.d));
  }

  /** The word-level body of rc6_encrypt (rc6.c:160-176): whitening and rounds. */
  method EncryptBlock(S: seq<Word>, r: nat, x: Block) returns (y: Block)
    requires |S| >= 2 * r + 4
    ensures y == Encrypt(S, r, x)
  {
    var B := Add(x.b, S[0]);
    var D := Add(x.d, S[1]);
    var z, s := EncryptLoops(S, r, Block(x.a, B, x.c, D));
    var A := Add(z.a, S[s]);
    s := s + 1;
    var C := Add(z.c, S[s]);
    y := Block(A, z.b, C, z.d);
  }

  /** The word-level body of rc6_decrypt (rc6.c:182-198): rounds undone, whitening removed. */
  method DecryptBlock(S: seq<Word>, r: nat, y: Block) returns (x: Block)
    requires |S| >= 2 * r + 4
    ensures x == Decrypt(S, r, y)
  {
    var s := 2 * r + 3;
    var C := Sub(y.c, S[s]);
    s := s - 1;
    var A := Sub(y.a, S[s]);
    var z, s' := DecryptLoops(S, r, Block(A, y.b, C, y.d));
    var D := Sub(z.d, S[s']);
    var B := Sub(z.b, S[s' - 1]);
    x := Block(z.a, B, z.c, D);
  }

  /**
   * rc6_encrypt (rc6.c:157-177): every word passes through bswap_if_be on
   * its way in and out, so whatever the host's byte order, the bytes
   * produced are EncryptWire's.
   */
  method Rc6Encrypt(host: Endian, S: seq<Word>, r: nat, pt: seq<byte>) returns (ct: seq<byte>)
    requires |S| >= 2 * r + 4 && |pt| == 4 * BPW
    ensures ct == EncryptWire(S, r, pt)
  {
    var x := LoadBlock(host, pt);
    var y := EncryptBlock(S, r, x);
    ct := StoreBlock(host, y);
  }

  /** rc6_decrypt (rc6.c:179-199), on either host. */
  method Rc6Decrypt(host: Endian, S: seq<Word>, r: nat, ct: seq<byte>) returns (pt: seq<byte>)
    requires |S| >= 2 * r + 4 && |ct| == 4 * BPW
    ensures pt == DecryptWire(S, r, ct)
  {
    var y := LoadBlock(host, ct);
    var x := DecryptBlock(S, r, y);
    pt := StoreBlock(host, x);
  }
}
