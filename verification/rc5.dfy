/**
 * The RC5 block transform (rc6.c:127-155): a block of two words, a round
 * key table of 2r+2 words, and r rounds of data-dependent rotation.
 */
module Rc5 {
  import opened Words
  import opened ByteOrder
  import opened RoundCount

  datatype Block = Block(a: Word, b: Word)

  /** One round of encryption keyed by k0, k1 (rc6.c:134-135). */
  function Round(x: Block, k0: Word, k1: Word): Block
  {
    var a := Add(RotL(Xor(x.a, x.b), Amt(x.b)), k0);
    var b := Add(RotL(Xor(x.b, a), Amt(a)), k1);
    Block(a, b)
  }

  /** One round of decryption keyed by k0, k1 (rc6.c:149-150). */
  function Unround(y: Block, k0: Word, k1: Word): Block
  {
    var b := Xor(RotR(Sub(y.b, k1), Amt(y.a)), y.a);
    var a := Xor(RotR(Sub(y.a, k0), Amt(b)), b);
    Block(a, b)
  }

  lemma UnroundRound(x: Block, k0: Word, k1: Word)
    ensures Unround(Round(x, k0, k1), k0, k1) == x
  {
    var t := RotL(Xor(x.a, x.b), Amt(x.b));
    var a := Add(t, k0);
    var u := RotL(Xor(x.b, a), Amt(a));
    AddSub(u, k1);
    RotRRotL(Xor(x.b, a), Amt(a));
    XorInvolution(x.b, a);
    AddSub(t, k0);
    RotRRotL(Xor(x.a, x.b), Amt(x.b));
    XorInvolution(x.a, x.b);
  }

  lemma RoundUnround(y: Block, k0: Word, k1: Word)
    ensures Round(Unround(y, k0, k1), k0, k1) == y
  {
    var v := RotR(Sub(y.b, k1), Amt(y.a));
    var b := Xor(v, y.a);
    var u := RotR(Sub(y.a, k0), Amt(b));
    var a := Xor(u, b);
    XorInvolution(u, b);
    RotLRotR(Sub(y.a, k0), Amt(b));
    SubAdd(y.a, k0);
    XorInvolution(v, y.a);
    RotLRotR(Sub(y.b, k1), Amt(y.a));
    SubAdd(y.b, k1);
  }

  /** n rounds of encryption, round m keyed by S[lo + 2m] and S[lo + 2m + 1]. */
  function EncRounds(S: seq<Word>, lo: nat, n: nat, x: Block): Block
    requires lo + 2 * n <= |S|
  {
    if n == 0 then x
    else Round(EncRounds(S, lo, n - 1, x), S[lo + 2 * n - 2], S[lo + 2 * n - 1])
  }

  /** Undo rounds n-1 down to 0 of EncRounds(S, lo, n, _). */
  function DecRounds(S: seq<Word>, lo: nat, n: nat, y: Block): Block
    requires lo + 2 * n <= |S|
  {
    if n == 0 then y
    else DecRounds(S, lo, n - 1, Unround(y, S[lo + 2 * n - 2], S[lo + 2 * n - 1]))
  }

  /** One more round, keyed at cursor s, on top of n rounds. */
  lemma EncStep(S: seq<Word>, lo: nat, n: nat, s: nat, x: Block, y: Block, y': Block)
    requires s == lo + 2 * n && s + 2 <= |S|
    requires y == EncRounds(S, lo, n, x) && y' == Round(y, S[s], S[s + 1])
    ensures y' == EncRounds(S, lo, n + 1, x)
  {
  }

  /** Undoing one more round, keyed below and at cursor s, off the top. */
  lemma DecStep(S: seq<Word>, lo: nat, k: nat, s: int, x: Block, x': Block)
    requires k >= 1 && s == lo + 2 * k - 1 && s < |S|
    requires x' == Unround(x, S[s - 1], S[s])
    ensures DecRounds(S, lo, k - 1, x') == DecRounds(S, lo, k, x)
  {
  }

  lemma {:induction false} DecEncRounds(S: seq<Word>, lo: nat, n: nat, x: Block)
    requires lo + 2 * n <= |S|
    ensures DecRounds(S, lo, n, EncRounds(S, lo, n, x)) == x
  {
    if n > 0 {
      UnroundRound(EncRounds(S, lo, n - 1, x), S[lo + 2 * n - 2], S[lo + 2 * n - 1]);
      DecEncRounds(S, lo, n - 1, x);
    }
  }

  lemma {:induction false} EncDecRounds(S: seq<Word>, lo: nat, n: nat, y: Block)
    requires lo + 2 * n <= |S|
    ensures EncRounds(S, lo, n, DecRounds(S, lo, n, y)) == y
  {
    if n > 0 {
      var y' := Unround(y, S[lo + 2 * n - 2], S[lo + 2 * n - 1]);
      EncDecRounds(S, lo, n - 1, y');
      RoundUnround(y, S[lo + 2 * n - 2], S[lo + 2 * n - 1]);
    }
  }

  /** rc5_encrypt on words (rc6.c:127-140): whiten with S[0], S[1], then run the rounds. */
  function Encrypt(S: seq<Word>, r: nat, x: Block): (y: Block)
    requires |S| >= 2 * r + 2
  {
    EncRounds(S, 2, Rounds(r), Block(Add(x.a, S[0]), Add(x.b, S[1])))
  }

  /**
   * rc5_decrypt on words (rc6.c:142-155): the cursor starts at S[2r+1] and
   * walks down through the rounds, ending on the two whitening words.
   */
  function Decrypt(S: seq<Word>, r: nat, y: Block): (x: Block)
    requires |S| >= 2 * r + 2
  {
    var lo := 2 * r + 2 - 2 * Rounds(r);
    var z := DecRounds(S, lo, Rounds(r), y);
    Block(Sub(z.a, S[lo - 2]), Sub(z.b, S[lo - 1]))
  }

  /** With fewer than four rounds requested, both loops run zero times: only the whitening remains. */
  lemma EncryptFewRounds(S: seq<Word>, r: nat, x: Block)
    requires r < 4 && |S| >= 2 * r + 2
    ensures Encrypt(S, r, x) == Block(Add(x.a, S[0]), Add(x.b, S[1]))
  {
    assert Rounds(r) == 0;
  }

  lemma DecryptFewRounds(S: seq<Word>, r: nat, y: Block)
    requires r < 4 && |S| >= 2 * r + 2
    ensures Decrypt(S, r, y) == Block(Sub(y.a, S[2 * r]), Sub(y.b, S[2 * r + 1]))
  {
    assert Rounds(r) == 0;
  }

  /**
   * For 0 < r < 4 no rounds run, yet decryption unwhitens with the words
   * at 2r and 2r+1 while encryption whitened with those at 0 and 1, so
   * the two transforms do not invert each other for such r.
   */
  lemma NoRoundTripOffMultiple(r: nat)
    requires 0 < r < 4
    ensures Decrypt([1, 0, 0, 0, 0, 0, 0, 0], r, Encrypt([1, 0, 0, 0, 0, 0, 0, 0], r, Block(0, 0))) != Block(0, 0)
  {
    var S: seq<Word> := [1, 0, 0, 0, 0, 0, 0, 0];
    EncryptFewRounds(S, r, Block(0, 0));
    DecryptFewRounds(S, r, Block(1, 0));
  }

  lemma DecryptEncrypt(S: seq<Word>, r: nat, x: Block)
    requires r % 4 == 0 && |S| >= 2 * r + 2
    ensures Decrypt(S, r, Encrypt(S, r, x)) == x
  {
    var pre := Block(Add(x.a, S[0]), Add(x.b, S[1]));
    DecEncRounds(S, 2, r, pre);
    AddSub(x.a, S[0]);
    AddSub(x.b, S[1]);
  }

  lemma EncryptDecrypt(S: seq<Word>, r: nat, y: Block)
    requires r % 4 == 0 && |S| >= 2 * r + 2
    ensures Encrypt(S, r, Decrypt(S, r, y)) == y
  {
    var z := DecRounds(S, 2, r, y);
    SubAdd(z.a, S[0]);
    SubAdd(z.b, S[1]);
    EncDecRounds(S, 2, r, y);
  }

  /** The two little-endian words of a 16-byte block. */
  function FromWire(m: seq<byte>): Block
    requires |m| == 2 * BPW
  {
    Block(WordOf(m[..BPW]), WordOf(m[BPW..]))
  }

  function ToWire(x: Block): (m: seq<byte>)
    ensures |m| == 2 * BPW
  {
    BytesOf(x.a) + BytesOf(x.b)
  }

  lemma WireRoundTrip(m: seq<byte>, x: Block)
    requires |m| == 2 * BPW
    ensures ToWire(FromWire(m)) == m
    ensures FromWire(ToWire(x)) == x
  {
    assert m == m[..BPW] + m[BPW..];
    var t := ToWire(x);
    assert t[..BPW] == BytesOf(x.a) && t[BPW..] == BytesOf(x.b);
  }

  /** Encryption of a block of wire bytes, as every host computes it. */
  function EncryptWire(S: seq<Word>, r: nat, pt: seq<byte>): (ct: seq<byte>)
    requires |S| >= 2 * r + 2 && |pt| == 2 * BPW
    ensures |ct| == 2 * BPW
  {
    ToWire(Encrypt(S, r, FromWire(pt)))
  }

  function DecryptWire(S: seq<Word>, r: nat, ct: seq<byte>): (pt: seq<byte>)
    requires |S| >= 2 * r + 2 && |ct| == 2 * BPW
    ensures |pt| == 2 * BPW
  {
    ToWire(Decrypt(S, r, FromWire(ct)))
  }

  lemma DecryptEncryptWire(S: seq<Word>, r: nat, pt: seq<byte>)
    requires r % 4 == 0 && |S| >= 2 * r + 2 && |pt| == 2 * BPW
    ensures DecryptWire(S, r, EncryptWire(S, r, pt)) == pt
  {
    var x := FromWire(pt);
    var y := Encrypt(S, r, x);
    WireRoundTrip(pt, y);
    DecryptEncrypt(S, r, x);
    WireRoundTrip(pt, x);
  }

  /**
   * The body of rc5_encrypt's inner loop (rc6.c:134-135) on the two
   * registers: one round, keyed by the two table words at the cursor, which
   * moves past them. If the registers hold k rounds of x0, they then hold
   * k + 1.
   */
  method EncryptRound(S: seq<Word>, s0: nat, x: Block, ghost x0: Block, ghost k: nat)
      returns (y: Block, s: nat)
    requires s0 + 2 <= |S| && s0 == 2 + 2 * k
    requires x == EncRounds(S, 2, k, x0)
    ensures s == s0 + 2
    ensures y == EncRounds(S, 2, k + 1, x0)
  {
    var A, B := x.a, x.b;
    s := s0;
    A := Add(RotL(Xor(A, B), Amt(B)), S[s]);
    s := s + 1;
    B := Add(RotL(Xor(B, A), Amt(A)), S[s]);
    s := s + 1;
    y := Block(A, B);
    EncStep(S, 2, k, s0, x0, x, y);
  }

  /**
   * The inner loop of rc5_encrypt (rc6.c:133-136): four rounds. Ghost k0
   * counts the rounds already applied to the original block x.
   */
  method EncryptPass(S: seq<Word>, s0: nat, y0: Block, ghost x: Block, ghost k0: nat)
      returns (y: Block, s: nat)
    requires s0 == 2 + 2 * k0 && s0 + 8 <= |S|
    requires y0 == EncRounds(S, 2, k0, x)
    ensures s == 2 + 2 * (k0 + 4)
    ensures y == EncRounds(S, 2, k0 + 4, x)
  {
    y, s := y0, s0;
    var j := 0;
    ghost var k := k0;
    while j < 4
      invariant 0 <= j <= 4 && k == k0 + j
      invariant s == 2 + 2 * k
      invariant y == EncRounds(S, 2, k, x)
    {
      y, s := EncryptRound(S, s, y, x, k);
      j := j + 1;
      k := k + 1;
    }
    assert k == k0 + 4;
  }

  /**
   * The outer loop of rc5_encrypt (rc6.c:132-137): r/4 passes, the cursor
   * starting at S[2], after the whitening words.
   */
  method EncryptLoops(S: seq<Word>, r: nat, x: Block) returns (y: Block, s: nat)
    requires |S| >= 2 * r + 2
    ensures s == 2 + 2 * Rounds(r)
    ensures y == EncRounds(S, 2, Rounds(r), x)
  {
    y := x;
    s := 2;
    var i := 0;
    ghost var k := 0;
    while i < r / 4
      invariant 0 <= i <= r / 4 && k == 4 * i
      invariant s == 2 + 2 * k
      invariant y == EncRounds(S, 2, k, x)
    {
      y, s := EncryptPass(S, s, y, x, k);
      i := i + 1;
      k := k + 4;
    }
    assert k == Rounds(r);
  }

  /**
   * The body of rc5_decrypt's inner loop (rc6.c:149-150) on the two
   * registers: one round undone, keyed by the table word below the cursor
   * and the one at it; the cursor moves below both. Of the k rounds above
   * lo still to undo, k - 1 then remain.
   */
  method DecryptRound(S: seq<Word>, s0: int, y: Block, ghost lo: nat, ghost k: nat)
      returns (x: Block, s: int)
    requires k >= 1 && s0 == lo + 2 * k - 1 && s0 < |S|
    ensures s == s0 - 2
    ensures DecRounds(S, lo, k - 1, x) == DecRounds(S, lo, k, y)
  {
    var A, B := y.a, y.b;
    s := s0;
    B := Xor(RotR(Sub(B, S[s]), Amt(A)), A);
    s := s - 1;
    A := Xor(RotR(Sub(A, S[s]), Amt(B)), B);
    s := s - 1;
    x := Block(A, B);
    DecStep(S, lo, k, s0, y, x);
  }

  /**
   * The inner loop of rc5_decrypt (rc6.c:148-151): four rounds undone.
   * Ghost k0 counts the rounds still to undo above lo.
   */
  method DecryptPass(S: seq<Word>, s0: int, x0: Block, ghost lo: nat, ghost k0: nat)
      returns (x: Block, s: int)
    requires s0 == lo + 2 * k0 - 1 && 4 <= k0 && lo + 2 * k0 <= |S|
    ensures s == lo + 2 * (k0 - 4) - 1
    ensures DecRounds(S, lo, k0 - 4, x) == DecRounds(S, lo, k0, x0)
  {
    x, s := x0, s0;
    var j := 0;
    ghost var k := k0;
    while j < 4
      invariant 0 <= j <= 4 && k == k0 - j
      invariant s == lo + 2 * k - 1
      invariant DecRounds(S, lo, k, x) == DecRounds(S, lo, k0, x0)
    {
      x, s := DecryptRound(S, s, x, lo, k);
      j := j + 1;
      k := k - 1;
    }
    assert k == k0 - 4;
  }

  /**
   * The outer loop of rc5_decrypt (rc6.c:147-152): the cursor starts at
   * S[2r+1] and on return rests on the word that unwhitens B.
   */
  method DecryptLoops(S: seq<Word>, r: nat, y: Block) returns (x: Block, s: int)
    requires |S| >= 2 * r + 2
    ensures s == 2 * r + 1 - 2 * Rounds(r) && 1 <= s
    ensures x == DecRounds(S, s + 1, Rounds(r), y)
  {
    ghost var n := Rounds(r);
    ghost var lo := 2 * r + 2 - 2 * n;
    x := y;
    s := 2 * r + 1;
    var i := 0;
    ghost var k := n;
    while i < r / 4
      invariant 0 <= i <= r / 4 && k == n - 4 * i
      invariant s == lo + 2 * k - 1
      invariant DecRounds(S, lo, k, x) == DecRounds(S, lo, n, y)
    {
      x, s := DecryptPass(S, s, x, lo, k);
      i := i + 1;
      k := k - 4;
    }
    assert k == 0 && s + 1 == lo;
  }

  /** The two words of a block as the host loads them (rc6.c:130-131, rc6.c:145-146). */
  method LoadBlock(host: Endian, m: seq<byte>) returns (x: Block)
    requires |m| == 2 * BPW
    ensures x == FromWire(m)
  {
    var m0, m1 := m[..BPW], m[BPW..];
    LoadLE(host, m0);
    LoadLE(host, m1);
    x := Block(BSwapIfBE(host, Load(host, m0)), BSwapIfBE(host, Load(host, m1)));
  }

  /** The two words of a block as the host stores them (rc6.c:138-139, rc6.c:153-154). */
  method StoreBlock(host: Endian, x: Block) returns (m: seq<byte>)
    ensures m == ToWire(x)
  {
    StoreLE(host, x.a);
    StoreLE(host, x.b);
    m := Store(host, BSwapIfBE(host, x.a)) + Store(host, BSwapIfBE(host, x.b));
  }

  /** The word-level body of rc5_encrypt (rc6.c:130-137): whitening and rounds. */
  method EncryptBlock(S: seq<Word>, r: nat, x: Block) returns (y: Block)
    requires |S| >= 2 * r + 2
    ensures y == Encrypt(S, r, x)
  {
    var A := Add(x.a, S[0]);
    var B := Add(x.b, S[1]);
    var s;
    y, s := EncryptLoops(S, r, Block(A, B));
  }

  /** The word-level body of rc5_decrypt (rc6.c:145-154): rounds undone, whitening removed. */
  method DecryptBlock(S: seq<Word>, r: nat, y: Block) returns (x: Block)
    requires |S| >= 2 * r + 2
    ensures x == Decrypt(S, r, y)
  {
    var z, s := DecryptLoops(S, r, y);
    var B := Sub(z.b, S[s]);
    s := s - 1;
    var A := Sub(z.a, S[s]);
    x := Block(A, B);
  }

  /**
   * rc5_encrypt (rc6.c:127-140): every word passes through bswap_if_be on
   * its way in and out, so whatever the host's byte order, the bytes
   * produced are EncryptWire's.
   */
  method Rc5Encrypt(host: Endian, S: seq<Word>, r: nat, pt: seq<byte>) returns (ct: seq<byte>)
    requires |S| >= 2 * r + 2 && |pt| == 2 * BPW
    ensures ct == EncryptWire(S, r, pt)
  {
    var x := LoadBlock(host, pt);
    var y := EncryptBlock(S, r, x);
    ct := StoreBlock(host, y);
  }

  /** rc5_decrypt (rc6.c:142-155), on either host. */
  method Rc5Decrypt(host: Endian, S: seq<Word>, r: nat, ct: seq<byte>) returns (pt: seq<byte>)
    requires |S| >= 2 * r + 2 && |ct| == 2 * BPW
    ensures pt == DecryptWire(S, r, ct)
  {
    var y := LoadBlock(host, ct);
    var x := DecryptBlock(S, r, y);
    pt := StoreBlock(host, x);
  }
}
