/**
 * The key schedule shared by RC5 and RC6 (rc6.c:95-125): check the
 * parameters, load the key bytes into little-endian words L, fill the
 * table S from the constants P and Q, and mix L into S.
 */
module KeySchedule {
  import opened Words
  import opened ByteOrder
  import Rc5
  import Rc6

  /** Status codes of setup, rc5_setup and rc6_setup. */
  const OK: int := 0
  const BAD_PARAMS: int := -1

  /** Largest key length in bytes and largest round count (rc6.c:97). */
  const MAX_KEY: nat := 255
  const MAX_ROUNDS: nat := 255

  /** The parameter check of setup (rc6.c:97): the word width, key length and rounds. */
  predicate ValidParams(w: int, r: int, b: int)
  {
    w == W && 0 <= b <= MAX_KEY && 0 <= r <= MAX_ROUNDS && r % 4 == 0
  }

  /** L_words (rc6.c:101): key words, at least one even for an empty key. */
  function LWords(b: nat): nat
  {
    Max(1, (b + BPW - 1) / BPW)
  }

  /** L has room for every key length setup accepts: 256 / sizeof(WORD) words (rc6.c:100). */
  lemma LWordsBounds(b: nat)
    requires b <= MAX_KEY
    ensures 1 <= LWords(b) <= 256 / BPW
    ensures b <= BPW * LWords(b)
    ensures b == 0 || BPW * (LWords(b) - 1) < b
  {
  }

  function Zeros(n: nat): (z: seq<byte>)
    ensures |z| == n
    ensures forall i :: 0 <= i < n ==> z[i] == 0
  {
    seq(n, i => 0)
  }

  /** The bytes of L after the copy: the key, then zeros up to a whole number of words. */
  function PadKey(key: seq<byte>, b: nat): (m: seq<byte>)
    requires b <= |key| && b <= MAX_KEY
    ensures |m| == BPW * LWords(b)
  {
    LWordsBounds(b);
    key[..b] + Zeros(BPW * LWords(b) - b)
  }

  /** The key words L (rc6.c:100-105): word i is bytes 8i..8i+7 of the padded key, little-endian. */
  function KeyWords(key: seq<byte>, b: nat): (L: seq<Word>)
    requires b <= |key| && b <= MAX_KEY
    ensures |L| == LWords(b)
  {
    var m := PadKey(key, b);
    seq(LWords(b), i requires 0 <= i < LWords(b) => WordOf(m[BPW * i..BPW * i + BPW]))
  }

  /** The little-endian bytes of a sequence of words, one after another. */
  function WordsBytes(L: seq<Word>): (m: seq<byte>)
    ensures |m| == BPW * |L|
  {
    if |L| == 0 then [] else WordsBytes(L[..|L| - 1]) + BytesOf(L[|L| - 1])
  }

  lemma {:induction false} WordsBytesOf(m: seq<byte>, L: seq<Word>)
    requires |m| == BPW * |L|
    requires forall i :: 0 <= i < |L| ==> L[i] == WordOf(m[BPW * i..BPW * i + BPW])
    ensures WordsBytes(L) == m
  {
    if |L| > 0 {
      var n := |L| - 1;
      var m' := m[..BPW * n];
      assert forall i :: 0 <= i < n ==> m'[BPW * i..BPW * i + BPW] == m[BPW * i..BPW * i + BPW];
      WordsBytesOf(m', L[..n]);
      assert BytesOf(L[n]) == m[BPW * n..] by {
        var c := m[BPW * n..];
        assert c == m[BPW * n..BPW * n + BPW];
        assert ToLE(WordOf(c), BPW) == c;
      }
      assert m == m' + m[BPW * n..];
    }
  }

  /**
   * Key loading loses nothing: the bytes of the key words are the key,
   * followed by zeros.
   */
  lemma KeyWordsBytes(key: seq<byte>, b: nat)
    requires b <= |key| && b <= MAX_KEY
    ensures WordsBytes(KeyWords(key, b)) == PadKey(key, b)
    ensures WordsBytes(KeyWords(key, b))[..b] == key[..b]
    ensures forall i :: b <= i < BPW * LWords(b) ==> WordsBytes(KeyWords(key, b))[i] == 0
  {
    WordsBytesOf(PadKey(key, b), KeyWords(key, b));
  }

  lemma {:induction false} ToLEZero(n: nat)
    ensures ToLE(0, n) == Zeros(n)
  {
    if n > 0 {
      ToLEZero(n - 1);
    }
  }

  /** An empty key gives the single key word 0 (rc6.c:101-103). */
  lemma KeyWordsEmpty(key: seq<byte>)
    ensures KeyWords(key, 0) == [0]
  {
    ToLEZero(BPW);
    assert PadKey(key, 0)[0..BPW] == BytesOf(0);
  }

  /** S filled from the constants (rc6.c:107-108): S[0] = P and S[i] = S[i-1] + Q. */
  function Fill(n: nat): (S: seq<Word>)
    ensures |S| == n
  {
    if n == 0 then []
    else if n == 1 then [P]
    else var T := Fill(n - 1); T + [Add(T[n - 2], Q)]
  }

  lemma ModAddLeft(a: nat, c: nat)
    ensures ((a % M) + c) % M == (a + c) % M
  {
    assert a + c == (a / M) * M + ((a % M) + c);
    ModAddMultiple(a / M, (a % M) + c, M);
  }

  /** The closed form of the filled table: S[i] = P + i*Q modulo 2^64. */
  lemma {:induction false} FillValue(n: nat, i: nat)
    requires i < n
    ensures Fill(n)[i] == (P + i * Q) % M
  {
    if i < n - 1 {
      FillValue(n - 1, i);
    } else if i > 0 {
      var T := Fill(n - 1);
      var a := P + (i - 1) * Q;
      assert T[i - 1] == a % M by {
        FillValue(n - 1, i - 1);
      }
      assert Fill(n)[i] == ((a % M) + Q) % M;
      ModAddLeft(a, Q);
      assert a + Q == P + i * Q;
    }
  }

  /**
   * The state of the mixing loop (rc6.c:110-115): the arrays S and L, the
   * registers A and B, and the cursors i and j as they stand at the top of
   * an iteration, before the wrap-around tests.
   */
  datatype Mixer = Mixer(S: seq<Word>, L: seq<Word>, a: Word, b: Word, i: nat, j: nat)

  /** The loop's wrap-around test: a cursor at the end of an array of n words restarts at 0. */
  function Wrap(i: nat, n: nat): nat
  {
    if i == n then 0 else i
  }

  /** Cursors at most at the end of their arrays, which must not be empty. */
  predicate Ready(m: Mixer)
  {
    1 <= |m.S| && 1 <= |m.L| && m.i <= |m.S| && m.j <= |m.L|
  }

  /**
   * One iteration (rc6.c:111-114): wrap the cursors, then
   * A = S[i] = rotl(S[i]+A+B, 3) and B = L[j] = rotl(L[j]+A+B, (A+B) mod 64),
   * then advance both cursors.
   */
  function MixStep(m: Mixer): (m': Mixer)
    requires Ready(m)
    ensures Ready(m') && |m'.S| == |m.S| && |m'.L| == |m.L|
  {
    var i, j := Wrap(m.i, |m.S|), Wrap(m.j, |m.L|);
    var a := RotL(Add(Add(m.S[i], m.a), m.b), 3);
    var b := RotL(Add(Add(m.L[j], a), m.b), Amt(Add(a, m.b)));
    Mixer(m.S[i := a], m.L[j := b], a, b, i + 1, j + 1)
  }

  /** The state after n iterations, from A = B = 0 and i = j = 0. */
  function Mix(S: seq<Word>, L: seq<Word>, n: nat): (m: Mixer)
    requires 1 <= |S| && 1 <= |L|
    ensures Ready(m) && |m.S| == |S| && |m.L| == |L|
  {
    if n == 0 then Mixer(S, L, 0, 0, 0, 0) else MixStep(Mix(S, L, n - 1))
  }

  /** Iterations of the mixing loop: three times the longer of S and L (rc6.c:110). */
  function MixCount(sWords: nat, lWords: nat): nat
  {
    3 * Max(lWords, sWords)
  }

  /** Iteration n works on S[n mod |S|] and on L[n mod |L|]. */
  lemma {:induction false} MixIndex(S: seq<Word>, L: seq<Word>, n: nat)
    requires 1 <= |S| && 1 <= |L|
    ensures Wrap(Mix(S, L, n).i, |S|) == n % |S|
    ensures Wrap(Mix(S, L, n).j, |L|) == n % |L|
  {
    if n > 0 {
      MixIndex(S, L, n - 1);
      ModNext(n - 1, |S|);
      ModNext(n - 1, |L|);
    }
  }

  /**
   * Iteration n rewrites S[n mod |S|] and L[n mod |L|] and no other word,
   * and leaves in A and B the words it wrote: the chained assignments
   * A = S[i] = ... and B = L[j] = ... (rc6.c:113-114).
   */
  lemma MixWrites(S: seq<Word>, L: seq<Word>, n: nat)
    requires 1 <= |S| && 1 <= |L|
    ensures Mix(S, L, n + 1).S[n % |S|] == Mix(S, L, n + 1).a
    ensures Mix(S, L, n + 1).L[n % |L|] == Mix(S, L, n + 1).b
    ensures forall t :: 0 <= t < |S| && t != n % |S| ==> Mix(S, L, n + 1).S[t] == Mix(S, L, n).S[t]
    ensures forall t :: 0 <= t < |L| && t != n % |L| ==> Mix(S, L, n + 1).L[t] == Mix(S, L, n).L[t]
  {
    MixIndex(S, L, n);
  }

  /**
   * Every word of S is rewritten in each of the first three sweeps: for
   * t < |S| and p < 3, iteration p*|S| + t comes before the loop ends and
   * rewrites S[t].
   */
  lemma MixCoversTable(S: seq<Word>, L: seq<Word>, t: nat, p: nat)
    requires 1 <= |S| && 1 <= |L| && t < |S| && p < 3
    ensures p * |S| + t < MixCount(|S|, |L|)
    ensures Wrap(Mix(S, L, p * |S| + t).i, |S|) == t
  {
    DivModOf(p, t, |S|);
    MulBelow(p, 3, |S|);
    MixIndex(S, L, p * |S| + t);
  }

  /** What setup returns: the status and the caller's table buffer afterwards. */
  datatype Outcome = Outcome(status: int, S: seq<Word>)

  /** Whether a caller's buffers suit setup: room for the table, and the b key bytes. */
  predicate Fits(buf: seq<Word>, sWords: int, w: int, r: int, b: int, key: seq<byte>)
  {
    ValidParams(w, r, b) ==> 1 <= sWords <= |buf| && b <= |key|
  }

  /**
   * setup (rc6.c:95-118) on a table buffer buf of which the first sWords
   * words receive the schedule.
   */
  function Setup(buf: seq<Word>, sWords: int, w: int, r: int, b: int, key: seq<byte>): (o: Outcome)
    requires Fits(buf, sWords, w, r, b, key)
    ensures o.status == OK || o.status == BAD_PARAMS
    ensures o.status == OK <==> ValidParams(w, r, b)
    ensures o.status == BAD_PARAMS ==> o.S == buf
    ensures |o.S| == |buf|
    ensures o.status == OK ==> o.S[sWords..] == buf[sWords..]
  {
    if !ValidParams(w, r, b) then Outcome(BAD_PARAMS, buf)
    else
      var L := KeyWords(key, b);
      var m := Mix(Fill(sWords), L, MixCount(sWords, |L|));
      Outcome(OK, m.S + buf[sWords..])
  }

  /**
   * Past the b key bytes, L holds zeros up to the end of the last key word,
   * so a key that ends in a zero byte gives the same L as the key without
   * it, as long as the word count stays the same.
   */
  lemma KeyWordsTrailingZero(key: seq<byte>, b: nat)
    requires b + 1 <= |key| && b + 1 <= MAX_KEY && key[b] == 0
    requires LWords(b + 1) == LWords(b)
    ensures KeyWords(key, b + 1) == KeyWords(key, b)
  {
    assert PadKey(key, b + 1) == PadKey(key, b);
  }

  /** Only the first b bytes of the key matter. */
  lemma KeyWordsPrefix(key: seq<byte>, key': seq<byte>, b: nat)
    requires b <= |key| && b <= |key'| && b <= MAX_KEY
    requires key[..b] == key'[..b]
    ensures KeyWords(key, b) == KeyWords(key', b)
  {
    assert PadKey(key, b) == PadKey(key', b);
  }

  /** (k + 1) mod m steps forward from k mod m, wrapping to 0 at m. */
  lemma ModNext(k: nat, m: nat)
    requires m >= 1
    ensures (k + 1) % m == if k % m + 1 == m then 0 else k % m + 1
  {
    var q, r := k / m, k % m;
    assert k + 1 == q * m + (r + 1);
    if r + 1 < m {
      DivModOf(q, r + 1, m);
    } else {
      assert k + 1 == (q + 1) * m + 0;
      DivModOf(q + 1, 0, m);
    }
  }

  /**
   * The bytes of L after zeroing the last key word and copying the key
   * (rc6.c:103-104), L starting as arbitrary memory junk of 256 bytes:
   * the key words' bytes are the padded key, whatever the junk.
   */
  method CopyKey(key: seq<byte>, b: nat, junk: seq<byte>) returns (mem: seq<byte>)
    requires b <= |key| && b <= MAX_KEY && |junk| == 256
    ensures |mem| == 256 && BPW * LWords(b) <= 256
    ensures mem[..BPW * LWords(b)] == PadKey(key, b)
  {
    var n := LWords(b);
    LWordsBounds(b);
    var last := BPW * (n - 1);
    mem := junk[..last] + Zeros(BPW) + junk[last + BPW..];
    var i := 0;
    while i < b
      invariant 0 <= i <= b && |mem| == 256
      invariant mem[..i] == key[..i]
      invariant forall t :: last <= t < BPW * n && i <= t ==> mem[t] == 0
    {
      mem := mem[i := key[i]];
      i := i + 1;
    }
  }

  /**
   * Normalizing the key words (rc6.c:105): each word of L as the host
   * loads it, passed through bswap_if_be, is the little-endian reading of
   * its bytes.
   */
  method NormalizeWords(host: Endian, m: seq<byte>, n: nat) returns (L: seq<Word>)
    requires BPW * n <= |m|
    ensures |L| == n
    ensures forall i :: 0 <= i < n ==> L[i] == WordOf(m[BPW * i..BPW * i + BPW])
  {
    L := [];
    var i := 0;
    while i < n
      invariant 0 <= i <= n && |L| == i
      invariant forall t :: 0 <= t < i ==> L[t] == WordOf(m[BPW * t..BPW * t + BPW])
    {
      var w := m[BPW * i..BPW * i + BPW];
      LoadLE(host, w);
      L := L + [BSwapIfBE(host, Load(host, w))];
      i := i + 1;
    }
  }

  /**
   * Key loading (rc6.c:100-105) on a host of either byte order: whatever
   * junk L starts as, it ends as the key words.
   */
  method LoadKey(host: Endian, key: seq<byte>, b: nat, junk: seq<byte>) returns (L: seq<Word>)
    requires b <= |key| && b <= MAX_KEY && |junk| == 256
    ensures L == KeyWords(key, b)
  {
    var mem := CopyKey(key, b, junk);
    var m := mem[..BPW * LWords(b)];
    L := NormalizeWords(host, m, LWords(b));
  }
  /** Filling S (rc6.c:107-108): S[i] holds P + i*Q modulo 2^64. */
  method FillTable(n: nat) returns (S: seq<Word>)
    requires n >= 1
    ensures S == Fill(n)
    ensures forall t :: 0 <= t < n ==> S[t] == (P + t * Q) % M
  {
    S := [P];
    var i := 1;
    while i < n
      invariant 1 <= i <= n && S == Fill(i)
    {
      S := S + [Add(S[i - 1], Q)];
      i := i + 1;
    }
    forall t | 0 <= t < n
      ensures S[t] == (P + t * Q) % M
    {
      FillValue(n, t);
    }
  }

  /**
   * One iteration of the mixing loop (rc6.c:111-114): from the state after
   * k iterations it makes the state after k + 1.
   */
  method MixOnce(S: seq<Word>, L: seq<Word>, A: Word, B: Word, i: nat, j: nat,
                 ghost S0: seq<Word>, ghost L0: seq<Word>, ghost k: nat)
      returns (S': seq<Word>, L': seq<Word>, A': Word, B': Word, i': nat, j': nat)
    requires 1 <= |S0| && 1 <= |L0|
    requires Mixer(S, L, A, B, i, j) == Mix(S0, L0, k)
    ensures Mixer(S', L', A', B', i', j') == Mix(S0, L0, k + 1)
  {
    i', j' := i, j;
    if i' == |S| { i' := 0; }
    if j' == |L| { j' := 0; }
    A' := RotL(Add(Add(S[i'], A), B), 3);
    S' := S[i' := A'];
    B' := RotL(Add(Add(L[j'], A'), B), Amt(Add(A', B)));
    L' := L[j' := B'];
    i', j' := i' + 1, j' + 1;
  }

  /**
   * The mixing loop (rc6.c:110-115), with the cursors i and j advancing
   * alongside k and reset to 0 when they reach the end of S and of L.
   */
  method MixKey(S0: seq<Word>, L0: seq<Word>) returns (S: seq<Word>, L: seq<Word>)
    requires 1 <= |S0| && 1 <= |L0|
    ensures S == Mix(S0, L0, MixCount(|S0|, |L0|)).S
    ensures L == Mix(S0, L0, MixCount(|S0|, |L0|)).L
  {
    var A: Word, B: Word := 0, 0;
    S, L := S0, L0;
    var n := MixCount(|S0|, |L0|);
    var i: nat, j: nat, k := 0, 0, 0;
    while k < n
      invariant 0 <= k <= n
      invariant Mixer(S, L, A, B, i, j) == Mix(S0, L0, k)
    {
      S, L, A, B, i, j := MixOnce(S, L, A, B, i, j, S0, L0, k);
      k := k + 1;
    }
  }

  /**
   * setup (rc6.c:95-118) as the host runs it: the parameter check, then
   * key loading on the host's byte order from the junk L starts with,
   * filling and mixing. The table is the same on every host and for every
   * junk.
   */
  method SetupHost(host: Endian, buf: seq<Word>, sWords: int, w: int, r: int, b: int,
                   key: seq<byte>, junk: seq<byte>) returns (status: int, S: seq<Word>)
    requires Fits(buf, sWords, w, r, b, key) && |junk| == 256
    ensures status == OK <==> ValidParams(w, r, b)
    ensures Outcome(status, S) == Setup(buf, sWords, w, r, b, key)
  {
    if w != W || b < 0 || b > 255 || r < 0 || r > 255 || r % 4 != 0 {
      return BAD_PARAMS, buf;
    }
    var L := LoadKey(host, key, b, junk);
    var T := FillTable(sWords);
    T, L := MixKey(T, L);
    return OK, T + buf[sWords..];
  }

  /**
   * Keys that differ by a trailing zero byte within the same last word give
   * the same table: setup cannot tell them apart.
   */
  lemma SetupTrailingZero(buf: seq<Word>, sWords: int, w: int, r: int, b: int, key: seq<byte>)
    requires ValidParams(w, r, b + 1) && b >= 0 && 1 <= sWords <= |buf| && b + 1 <= |key|
    requires key[b] == 0 && LWords(b + 1) == LWords(b)
    ensures Setup(buf, sWords, w, r, b + 1, key) == Setup(buf, sWords, w, r, b, key)
  {
    KeyWordsTrailingZero(key, b);
  }

  /** Table words of RC5 and of RC6 for r rounds (rc6.c:121, rc6.c:124). */
  function Rc5Words(r: int): int { 2 * r + 2 }
  function Rc6Words(r: int): int { 2 * r + 4 }

  /**
   * A table setup accepted for RC5 decrypts what it encrypts: the round
   * count setup insists on is a multiple of four, which is what the
   * four-round passes of the cipher need.
   */
  lemma Rc5SetupRoundTrip(rkey: seq<Word>, w: int, r: int, b: int, key: seq<byte>, pt: seq<byte>)
    requires Fits(rkey, Rc5Words(r), w, r, b, key) && |pt| == 2 * BPW
    requires Setup(rkey, Rc5Words(r), w, r, b, key).status == OK
    ensures Rc5.DecryptWire(Setup(rkey, Rc5Words(r), w, r, b, key).S, r,
              Rc5.EncryptWire(Setup(rkey, Rc5Words(r), w, r, b, key).S, r, pt)) == pt
  {
    Rc5.DecryptEncryptWire(Setup(rkey, Rc5Words(r), w, r, b, key).S, r, pt);
  }

  lemma Rc6SetupRoundTrip(rkey: seq<Word>, w: int, r: int, b: int, key: seq<byte>, pt: seq<byte>)
    requires Fits(rkey, Rc6Words(r), w, r, b, key) && |pt| == 4 * BPW
    requires Setup(rkey, Rc6Words(r), w, r, b, key).status == OK
    ensures Rc6.DecryptWire(Setup(rkey, Rc6Words(r), w, r, b, key).S, r,
              Rc6.EncryptWire(Setup(rkey, Rc6Words(r), w, r, b, key).S, r, pt)) == pt
  {
    Rc6.DecryptEncryptWire(Setup(rkey, Rc6Words(r), w, r, b, key).S, r, pt);
  }

  /** rc5_setup (rc6.c:120-122): a table of 2r+2 words. */
  method Rc5Setup(host: Endian, rkey: seq<Word>, w: int, r: int, b: int,
                  key: seq<byte>, junk: seq<byte>) returns (status: int, S: seq<Word>)
    requires Fits(rkey, Rc5Words(r), w, r, b, key) && |junk| == 256
    ensures Outcome(status, S) == Setup(rkey, Rc5Words(r), w, r, b, key)
    ensures status == OK ==> r >= 0 && |S| >= Rc5Words(r)
    ensures status == OK ==> forall pt :: |pt| == 2 * BPW ==>
              Rc5.DecryptWire(S, r, Rc5.EncryptWire(S, r, pt)) == pt
  {
    status, S := SetupHost(host, rkey, Rc5Words(r), w, r, b, key, junk);
    if status == OK {
      forall pt | |pt| == 2 * BPW
        ensures Rc5.DecryptWire(S, r, Rc5.EncryptWire(S, r, pt)) == pt
      {
        Rc5SetupRoundTrip(rkey, w, r, b, key, pt);
      }
    }
  }

  /** rc6_setup (rc6.c:123-125): a table of 2r+4 words. */
  method Rc6Setup(host: Endian, rkey: seq<Word>, w: int, r: int, b: int,
                  key: seq<byte>, junk: seq<byte>) returns (status: int, S: seq<Word>)
    requires Fits(rkey, Rc6Words(r), w, r, b, key) && |junk| == 256
    ensures Outcome(status, S) == Setup(rkey, Rc6Words(r), w, r, b, key)
    ensures status == OK ==> r >= 0 && |S| >= Rc6Words(r)
    ensures status == OK ==> forall pt :: |pt| == 4 * BPW ==>
              Rc6.DecryptWire(S, r, Rc6.EncryptWire(S, r, pt)) == pt
  {
    status, S := SetupHost(host, rkey, Rc6Words(r), w, r, b, key, junk);
    if status == OK {
      forall pt | |pt| == 4 * BPW
        ensures Rc6.DecryptWire(S, r, Rc6.EncryptWire(S, r, pt)) == pt
      {
        Rc6SetupRoundTrip(rkey, w, r, b, key, pt);
      }
    }
  }
}
