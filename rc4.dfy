/**
 * The fixed-key RC4 cipher of src/rkpyimg/core/rc4.py.
 *
 * The specification functions (KeyArray, Ksa, Prga, Keystream, Crypt,
 * CryptBlocks) describe the cipher in terms of its inputs; the methods
 * Rc4Init, Rc4Crypt, Rc4EncryptBlocks and Rc4DecryptBlocks are the source's
 * loops, proved to compute them.  This is a compatibility cipher with a
 * hard-coded key, not a cryptographic one.
 */
module Rc4 {
  import opened Bytes

  /** ROCKCHIP_RC4_KEY. */
  const RockchipKey: seq<byte> := [124, 78, 3, 4, 85, 5, 9, 7] + [45, 44, 123, 56, 23, 13, 23, 17]

  /** `list(range(256))`. */
  function Identity(): (r: seq<byte>)
    ensures |r| == 256
  {
    seq(256, i requires 0 <= i < 256 => i)
  }

  /** S is a permutation of the bytes 0..255. */
  ghost predicate IsPermutation(s: seq<byte>)
  {
    |s| == 256 && multiset(s) == multiset(Identity())
  }

  /** The key schedule K: the key repeated over 256 entries. */
  function KeyArray(key: seq<byte>): (r: seq<byte>)
    requires |key| > 0
    ensures |r| == 256
  {
    seq(256, i requires 0 <= i < 256 => key[i % |key|])
  }

  function Swap(s: seq<byte>, i: nat, j: nat): (r: seq<byte>)
    requires i < |s| && j < |s|
    ensures |r| == |s|
  {
    s[i := s[j]][j := s[i]]
  }

  /** Exchanging two entries keeps the multiset of entries. */
  lemma SwapPermutes(s: seq<byte>, i: nat, j: nat)
    requires i < |s| && j < |s|
    ensures multiset(Swap(s, i, j)) == multiset(s)
  {
  }

  /** The key-scheduling state: the S-box and the running index j. */
  datatype KsaState = KsaState(s: seq<byte>, j: int)
  {
    predicate Valid()
    {
      |s| == 256 && 0 <= j < 256
    }
  }

  /** Key-scheduling round `i` with key-schedule byte `ki`: advance j by S[i] + ki, exchange S[i] and S[j]. */
  function KsaStep(st: KsaState, i: nat, ki: byte): (r: KsaState)
    requires i < 256 && st.Valid()
    ensures r.Valid()
  {
    var j := (st.j + st.s[i] + ki) % 256;
    KsaState(Swap(st.s, i, j), j)
  }

  /**
   * The state after the key-scheduling rounds driven by the schedule bytes
   * `k` (round `i` uses `k[i]`); the recursion runs over the schedule, not
   * over a round counter.
   */
  function Ksa(k: seq<byte>): (st: KsaState)
    requires |k| <= 256
    ensures st.Valid()
  {
    if k == [] then KsaState(Identity(), 0)
    else KsaStep(Ksa(k[..|k| - 1]), |k| - 1, k[|k| - 1])
  }

  /** The S-box rc4_init returns: all 256 rounds over the key schedule. */
  function InitialBox(key: seq<byte>): (s: seq<byte>)
    requires |key| > 0
    ensures |s| == 256
  {
    Ksa(KeyArray(key)).s
  }

  lemma {:induction false} KsaPermutation(k: seq<byte>)
    requires |k| <= 256
    ensures IsPermutation(Ksa(k).s)
  {
    if k != [] {
      var prev := Ksa(k[..|k| - 1]);
      KsaPermutation(k[..|k| - 1]);
      SwapPermutes(prev.s, |k| - 1, Ksa(k).j);
    }
  }

  /** The S-box produced by key scheduling is a permutation of 0..255. */
  lemma InitialBoxPermutation(key: seq<byte>)
    requires |key| > 0
    ensures IsPermutation(InitialBox(key))
  {
    KsaPermutation(KeyArray(key));
  }

  /** The generator state (S, i, j). */
  datatype PrgaState = PrgaState(s: seq<byte>, i: int, j: int)
  {
    predicate Valid()
    {
      |s| == 256 && 0 <= i < 256 && 0 <= j < 256
    }
  }

  /** One generator round: i advances by one, j by S[i], and S[i] and S[j] are exchanged. */
  function PrgaStep(p: PrgaState): (r: PrgaState)
    requires p.Valid()
    ensures r.Valid()
  {
    var i := (p.i + 1) % 256;
    var j := (p.j + p.s[i]) % 256;
    PrgaState(Swap(p.s, i, j), i, j)
  }

  /** The generator state after `n` rounds, starting from box `s0`. */
  function Prga(s0: seq<byte>, n: nat): (st: PrgaState)
    requires |s0| == 256
    ensures st.Valid()
  {
    if n == 0 then PrgaState(s0, 0, 0) else PrgaStep(Prga(s0, n - 1))
  }

  /** The byte the generator emits in state `p`: S[(S[i] + S[j]) % 256]. */
  function Output(p: PrgaState): byte
    requires p.Valid()
  {
    p.s[(p.s[p.i] as int + p.s[p.j]) % 256]
  }

  /** Keystream byte `x`: the output of generator round `x + 1`; it depends only on the position, never on the data. */
  function KeystreamByte(s0: seq<byte>, x: nat): byte
    requires |s0| == 256
  {
    Output(Prga(s0, x + 1))
  }

  /** The first `n` keystream bytes generated from box `s0`. */
  function Keystream(s0: seq<byte>, n: nat): (r: seq<byte>)
    requires |s0| == 256
    ensures |r| == n
  {
    seq(n, x requires 0 <= x < n => KeystreamByte(s0, x))
  }

  /** A shorter keystream is a prefix of a longer one. */
  lemma KeystreamPrefix(s0: seq<byte>, m: nat, n: nat)
    requires |s0| == 256 && m <= n
    ensures Keystream(s0, n)[..m] == Keystream(s0, m)
  {
  }

  /** Exclusive-or every byte of `data` with the keystream byte at its position. */
  function XorKeystream(data: seq<byte>, keystream: seq<byte>): (r: seq<byte>)
    requires |data| <= |keystream|
    ensures |r| == |data|
  {
    seq(|data|, x requires 0 <= x < |data| => Xor(data[x], keystream[x]))
  }

  /** Exclusive-oring the same keystream twice gives back the data. */
  lemma XorKeystreamInvolution(data: seq<byte>, keystream: seq<byte>)
    requires |data| <= |keystream|
    ensures XorKeystream(XorKeystream(data, keystream), keystream) == data
  {
    var once := XorKeystream(data, keystream);
    forall x | 0 <= x < |data|
      ensures XorKeystream(once, keystream)[x] == data[x]
    {
      XorTwice(data[x], keystream[x]);
    }
  }

  /** The output for a prefix of the data is the prefix of the output. */
  lemma XorKeystreamPrefix(a: seq<byte>, b: seq<byte>, keystream: seq<byte>)
    requires |a| + |b| <= |keystream|
    ensures XorKeystream(a + b, keystream)[..|a|] == XorKeystream(a, keystream)
  {
    forall x | 0 <= x < |a|
      ensures XorKeystream(a + b, keystream)[x] == XorKeystream(a, keystream)[x]
    {
      assert (a + b)[x] == a[x];
    }
  }

  /** Only the first `|data|` keystream bytes are used. */
  lemma XorKeystreamTrim(data: seq<byte>, keystream: seq<byte>, n: nat)
    requires |data| <= n <= |keystream|
    ensures XorKeystream(data, keystream[..n]) == XorKeystream(data, keystream)
  {
  }

  /** What rc4_crypt returns: every byte exclusive-ored with the keystream byte at its position. */
  function Crypt(data: seq<byte>, key: seq<byte>): (r: seq<byte>)
    requires data == [] || |key| > 0
    ensures |r| == |data|
  {
    if data == [] then [] else XorKeystream(data, Keystream(InitialBox(key), |data|))
  }

  /** Byte `x` of rc4_crypt's output is byte `x` of the data exclusive-ored with keystream byte `x`. */
  lemma CryptAt(data: seq<byte>, key: seq<byte>, x: nat)
    requires |key| > 0 && x < |data|
    ensures Crypt(data, key)[x] == Xor(data[x], KeystreamByte(InitialBox(key), x))
  {
    assert Keystream(InitialBox(key), |data|)[x] == KeystreamByte(InitialBox(key), x);
  }

  /** rc4_crypt is its own inverse. */
  lemma CryptInvolution(data: seq<byte>, key: seq<byte>)
    requires data == [] || |key| > 0
    ensures Crypt(Crypt(data, key), key) == data
  {
    if data != [] {
      XorKeystreamInvolution(data, Keystream(InitialBox(key), |data|));
    }
  }

  /** The keystream depends only on the position, so encrypting a longer input extends the output. */
  lemma CryptPrefix(a: seq<byte>, b: seq<byte>, key: seq<byte>)
    requires |key| > 0
    ensures Crypt(a + b, key)[..|a|] == Crypt(a, key)
  {
    if a != [] {
      var s0 := InitialBox(key);
      var long := Keystream(s0, |a + b|);
      XorKeystreamPrefix(a, b, long);
      XorKeystreamTrim(a, long, |a|);
      KeystreamPrefix(s0, |a|, |a + b|);
    }
  }

  /** rc4_crypt on the empty input is the empty output, whatever the key. */
  lemma CryptEmpty(key: seq<byte>)
    ensures Crypt([], key) == []
  {
  }

  /**
   * rc4_init: the S-box after key scheduling and the key schedule K.  The
   * two Python lists are local to the cipher, so they are modelled as values.
   */
  method Rc4Init(key: seq<byte>) returns (s: seq<byte>, k: seq<byte>)
    requires |key| > 0
    ensures s == InitialBox(key)
    ensures multiset(s) == multiset(Identity())
    ensures |k| == 256 && forall i :: 0 <= i < 256 ==> k[i] == key[i % |key|]
  {
    s := Identity();
    k := seq(256, _ => 0);
    var keyLen := |key|;
    for i := 0 to 256
      invariant |k| == 256
      invariant forall m :: 0 <= m < i ==> k[m] == key[m % keyLen]
    {
      k := k[i := key[i % keyLen]];
    }
    KeyArrayIs(key, k);
    var j: int := 0;
    for i := 0 to 256
      invariant KsaState(s, j) == Ksa(k[..i])
    {
      KsaNext(k, i);
      s, j := KsaRound(s, j, i, k[i]);
    }
    assert k[..256] == k;
    KsaPermutation(k);
  }

  /** The body of rc4_init's second loop: advance j by S[i] + K[i] and exchange S[i] and S[j]. */
  method KsaRound(s: seq<byte>, j: int, i: nat, ki: byte) returns (s': seq<byte>, j': int)
    requires i < 256 && KsaState(s, j).Valid()
    ensures KsaState(s', j') == KsaStep(KsaState(s, j), i, ki)
  {
    j' := (j + s[i] + ki) % 256;
    s' := Swap(s, i, j');
  }

  /** The key schedule rc4_init fills in is KeyArray. */
  lemma KeyArrayIs(key: seq<byte>, k: seq<byte>)
    requires |key| > 0 && |k| == 256
    requires forall i :: 0 <= i < 256 ==> k[i] == key[i % |key|]
    ensures k == KeyArray(key)
  {
  }

  /** Round `i` of key scheduling extends the rounds before it by one step. */
  lemma KsaNext(k: seq<byte>, i: nat)
    requires i < |k| <= 256
    ensures Ksa(k[..i + 1]) == KsaStep(Ksa(k[..i]), i, k[i])
  {
    assert k[..i + 1][..i] == k[..i];
  }

  /**
   * The body of rc4_crypt's loop without the final exclusive-or: advance i
   * and j, exchange S[i] and S[j], and read the keystream byte
   * S[(S[i] + S[j]) % 256].
   */
  method PrgaRound(s: seq<byte>, i: int, j: int) returns (s': seq<byte>, i': int, j': int, keystreamByte: byte)
    requires PrgaState(s, i, j).Valid()
    ensures PrgaState(s', i', j') == PrgaStep(PrgaState(s, i, j))
    ensures keystreamByte == Output(PrgaState(s', i', j'))
  {
    i' := (i + 1) % 256;
    j' := (j + s[i']) % 256;
    s' := Swap(s, i', j');
    var t := (s'[i'] as int + s'[j']) % 256;
    keystreamByte := s'[t];
  }

  /** rc4_crypt: generate the keystream and exclusive-or it into a fresh result buffer. */
  method Rc4Crypt(data: seq<byte>, key: seq<byte>) returns (r: seq<byte>)
    requires data == [] || |key| > 0
    ensures r == Crypt(data, key)
  {
    if data == [] {
      return [];
    }
    var s, _ := Rc4Init(key);
    r := Rc4Prga(data, s);
  }

  /**
   * The generation half of rc4_crypt (its loop over the data): run the
   * generator from box `s` and exclusive-or each keystream byte into a fresh
   * result buffer (a local bytearray, modelled as a value).
   */
  method Rc4Prga(data: seq<byte>, s: seq<byte>) returns (r: seq<byte>)
    requires |s| == 256
    ensures r == XorKeystream(data, Keystream(s, |data|))
  {
    ghost var keystream := Keystream(s, |data|);
    ghost var s0 := s;
    var s := s;
    var result: seq<byte> := seq(|data|, _ => 0);
    var i: int, j: int := 0, 0;
    for x := 0 to |data|
      invariant |result| == |data|
      invariant PrgaState(s, i, j) == Prga(s0, x)
      invariant forall m :: 0 <= m < x ==> result[m] == Xor(data[m], keystream[m])
    {
      var keystreamByte;
      s, i, j, keystreamByte := PrgaRound(s, i, j);
      PrgaNext(s0, x, |data|);
      result := result[x := Xor(data[x], keystreamByte)];
    }
    r := result;
    XorKeystreamExt(data, keystream, r);
  }

  /** Round `x + 1` steps the state left by round `x` and emits keystream byte `x`. */
  lemma PrgaNext(s0: seq<byte>, x: nat, n: nat)
    requires |s0| == 256 && x < n
    ensures Prga(s0, x + 1) == PrgaStep(Prga(s0, x))
    ensures Keystream(s0, n)[x] == Output(PrgaStep(Prga(s0, x)))
  {
  }

  /** A buffer that agrees with the exclusive-or at every position is the exclusive-or. */
  lemma XorKeystreamExt(data: seq<byte>, keystream: seq<byte>, r: seq<byte>)
    requires |data| <= |keystream| && |r| == |data|
    requires forall m :: 0 <= m < |data| ==> r[m] == Xor(data[m], keystream[m])
    ensures r == XorKeystream(data, keystream)
  {
  }

  lemma MulAtLeast(a: int, b: int)
    requires a >= 1 && b > 0
    ensures a * b >= b
  {
  }

  lemma MulSucc(a: int, b: int)
    ensures (a + 1) * b == a * b + b
  {
  }

  /** Byte `y` of block `i` sits at offset `y` of its block. */
  lemma ModInBlock(i: nat, blockSize: int, y: nat)
    requires blockSize > 0 && y < blockSize
    ensures (i * blockSize + y) % blockSize == y
  {
    var x := i * blockSize + y;
    var q, r := x / blockSize, x % blockSize;
    assert x == q * blockSize + r;
    assert (i - q) * blockSize == r - y;
    if i - q >= 1 {
      MulAtLeast(i - q, blockSize);
    } else if q - i >= 1 {
      MulAtLeast(q - i, blockSize);
    }
  }

  /** One block further on, the offset within the block is the same. */
  lemma ModShift(x: nat, blockSize: int)
    requires blockSize > 0 && x >= blockSize
    ensures x % blockSize == (x - blockSize) % blockSize
  {
    var q, r := (x - blockSize) / blockSize, (x - blockSize) % blockSize;
    assert x - blockSize == q * blockSize + r;
    MulSucc(q, blockSize);
    ModInBlock(q + 1, blockSize, r);
  }

  /**
   * `f` applied to every block of `blockSize` bytes of `data` (the last
   * block possibly shorter), the results concatenated in order.
   */
  function MapBlocks(data: seq<byte>, blockSize: int, f: seq<byte> -> seq<byte>): (r: seq<byte>)
    requires blockSize > 0
    decreases |data|
  {
    if data == [] then []
    else if |data| <= blockSize then f(data)
    else f(data[..blockSize]) + MapBlocks(data[blockSize..], blockSize, f)
  }

  /**
   * The step of a loop that maps the blocks in order: once the block at
   * `lo` is mapped and appended, what is left to map starts one block on.
   */
  lemma MapBlocksStep(data: seq<byte>, blockSize: int, f: seq<byte> -> seq<byte>, lo: nat, next: nat,
                      done: seq<byte>, mapped: seq<byte>, result: seq<byte>, whole: seq<byte>)
    requires blockSize > 0 && lo < |data| && next == lo + blockSize
    requires done + MapBlocks(data[lo..], blockSize, f) == whole
    requires mapped == f(data[lo..lo + Min(blockSize, |data| - lo)])
    requires result == done + mapped
    ensures result + MapBlocks(data[Min(next, |data|)..], blockSize, f) == whole
  {
    var rest := data[lo..];
    var hi := Min(next, |data|);
    if |rest| <= blockSize {
      assert rest == data[lo..lo + Min(blockSize, |data| - lo)];
      assert data[hi..] == [];
    } else {
      assert rest[..blockSize] == data[lo..lo + Min(blockSize, |data| - lo)];
      assert rest[blockSize..] == data[hi..];
      ConcatAssoc(done, mapped, MapBlocks(data[hi..], blockSize, f));
    }
  }

  /** A length-preserving `f` maps the blocks to as many bytes as the input has. */
  lemma {:induction false} MapBlocksLength(data: seq<byte>, blockSize: int, f: seq<byte> -> seq<byte>)
    requires blockSize > 0
    requires forall b :: 0 < |b| <= blockSize ==> |f(b)| == |b|
    ensures |MapBlocks(data, blockSize, f)| == |data|
    decreases |data|
  {
    if |data| > blockSize {
      MapBlocksLength(data[blockSize..], blockSize, f);
    }
  }

  /** `lo` is a whole number of blocks of `blockSize` bytes. */
  ghost predicate BlockStart(lo: nat, blockSize: int)
    requires blockSize > 0
    decreases lo
  {
    lo == 0 || (lo >= blockSize && BlockStart(lo - blockSize, blockSize))
  }

  /** Every position lies in a block. */
  lemma {:induction false} BlockOf(x: nat, blockSize: int) returns (lo: nat)
    requires blockSize > 0
    ensures BlockStart(lo, blockSize) && lo <= x < lo + blockSize
    decreases x
  {
    if x < blockSize {
      lo := 0;
    } else {
      var prev := BlockOf(x - blockSize, blockSize);
      lo := prev + blockSize;
    }
  }

  /** A position's offset from the start of its block is its remainder modulo the block size. */
  lemma {:induction false} BlockOffset(x: nat, blockSize: int, lo: nat)
    requires blockSize > 0 && BlockStart(lo, blockSize) && lo <= x < lo + blockSize
    ensures x % blockSize == x - lo
    decreases lo
  {
    if lo == 0 {
      ModInBlock(0, blockSize, x);
    } else {
      BlockOffset(x - blockSize, blockSize, lo - blockSize);
      ModShift(x, blockSize);
    }
  }

  /** The first block of the output is `f` applied to the first block of the input. */
  lemma MapBlocksFirst(data: seq<byte>, blockSize: int, f: seq<byte> -> seq<byte>)
    requires blockSize > 0 && 0 < |data|
    requires forall b :: 0 < |b| <= blockSize ==> |f(b)| == |b|
    ensures |MapBlocks(data, blockSize, f)| >= Min(blockSize, |data|)
    ensures MapBlocks(data, blockSize, f)[0..Min(blockSize, |data|)] == f(data[0..Min(blockSize, |data|)])
  {
    var out := MapBlocks(data, blockSize, f);
    if |data| <= blockSize {
      assert data[0..|data|] == data;
      assert out[0..|data|] == out;
    } else {
      var head := f(data[..blockSize]);
      assert out == head + MapBlocks(data[blockSize..], blockSize, f);
      TakeConcat(head, MapBlocks(data[blockSize..], blockSize, f), blockSize);
      assert data[0..blockSize] == data[..blockSize];
    }
  }

  /** From the start of a block on, the output is the blocks from there on, mapped. */
  lemma {:induction false} MapBlocksDrop(data: seq<byte>, blockSize: int, f: seq<byte> -> seq<byte>, lo: nat)
    requires blockSize > 0 && BlockStart(lo, blockSize) && lo <= |data|
    requires forall b :: 0 < |b| <= blockSize ==> |f(b)| == |b|
    ensures |MapBlocks(data, blockSize, f)| == |data|
    ensures MapBlocks(data, blockSize, f)[lo..] == MapBlocks(data[lo..], blockSize, f)
    decreases lo
  {
    MapBlocksLength(data, blockSize, f);
    var out := MapBlocks(data, blockSize, f);
    if lo == 0 {
      assert data[0..] == data;
      assert out[0..] == out;
    } else if |data| <= blockSize {
      assert data[lo..] == [];
    } else {
      var tail := data[blockSize..];
      var head := f(data[..blockSize]);
      var rest := MapBlocks(tail, blockSize, f);
      assert out == head + rest;
      var lo' := lo - blockSize;
      MapBlocksDrop(tail, blockSize, f, lo');
      DropConcat(head, rest, lo);
      DropDrop(data, blockSize, lo');
      assert blockSize + lo' == lo;
    }
  }

  /** Byte `x` of the output, in the block starting at `lo`, is byte `x - lo` of `f` applied to that block. */
  lemma MapBlocksAt(data: seq<byte>, blockSize: int, f: seq<byte> -> seq<byte>, lo: nat, x: nat)
    requires blockSize > 0 && BlockStart(lo, blockSize) && lo <= x < lo + blockSize && x < |data|
    requires forall b :: 0 < |b| <= blockSize ==> |f(b)| == |b|
    ensures |MapBlocks(data, blockSize, f)| == |data|
    ensures data[lo..lo + Min(blockSize, |data| - lo)][x - lo] == data[x]
    ensures MapBlocks(data, blockSize, f)[x] == f(data[lo..lo + Min(blockSize, |data| - lo)])[x - lo]
  {
    MapBlocksDrop(data, blockSize, f, lo);
    var rest := data[lo..];
    MapBlocksFirst(rest, blockSize, f);
    assert rest[0..Min(blockSize, |rest|)] == data[lo..lo + Min(blockSize, |data| - lo)];
    assert MapBlocks(data, blockSize, f)[x] == MapBlocks(data, blockSize, f)[lo..][x - lo];
    assert MapBlocks(rest, blockSize, f)[x - lo] == MapBlocks(rest, blockSize, f)[0..Min(blockSize, |rest|)][x - lo];
  }

  /** A buffer longer than one block maps its first block, then the rest. */
  lemma MapBlocksSplit(data: seq<byte>, blockSize: int, f: seq<byte> -> seq<byte>, head: seq<byte>, tail: seq<byte>)
    requires blockSize > 0 && |data| > blockSize && data == head + tail && |head| == blockSize
    ensures MapBlocks(data, blockSize, f) == f(head) + MapBlocks(tail, blockSize, f)
  {
    TakeConcat(head, tail, blockSize);
    DropConcat(head, tail, blockSize);
    assert head[..blockSize] == head;
  }

  /** Mapping with a length-preserving `f` and then with its inverse `g` gives back the input. */
  lemma {:induction false} MapBlocksInverse(data: seq<byte>, blockSize: int, f: seq<byte> -> seq<byte>, g: seq<byte> -> seq<byte>)
    requires blockSize > 0
    requires forall b :: 0 < |b| <= blockSize ==> |f(b)| == |b|
    requires forall b :: 0 < |b| <= blockSize ==> g(f(b)) == b
    ensures MapBlocks(MapBlocks(data, blockSize, f), blockSize, g) == data
    decreases |data|
  {
    if |data| > blockSize {
      var head, tail := data[..blockSize], data[blockSize..];
      assert data == head + tail;
      MapBlocksSplit(data, blockSize, f, head, tail);
      var mappedHead, mappedTail := f(head), MapBlocks(tail, blockSize, f);
      MapBlocksLength(tail, blockSize, f);
      MapBlocksSplit(mappedHead + mappedTail, blockSize, g, mappedHead, mappedTail);
      MapBlocksInverse(tail, blockSize, f, g);
    }
  }

  /** rc4_crypt under a fixed key, as a function of the data. */
  function Cipher(key: seq<byte>): (f: seq<byte> -> seq<byte>)
    requires |key| > 0
  {
    data => Crypt(data, key)
  }

  /** rc4_crypt keeps the length of every block. */
  lemma CipherLength(key: seq<byte>, blockSize: int)
    requires |key| > 0
    ensures forall b :: 0 < |b| <= blockSize ==> |Cipher(key)(b)| == |b|
  {
  }

  /** What rc4_encrypt_blocks returns: every block encrypted by rc4_crypt from a fresh cipher state. */
  function CryptBlocks(data: seq<byte>, blockSize: int, key: seq<byte>): (r: seq<byte>)
    requires data == [] || (blockSize > 0 && |key| > 0)
  {
    if data == [] then [] else MapBlocks(data, blockSize, Cipher(key))
  }

  /**
   * Byte `x` of rc4_encrypt_blocks' output is byte `x` of the input
   * exclusive-ored with keystream byte `x % blockSize`: every block restarts
   * the keystream.
   */
  lemma CryptBlocksAt(data: seq<byte>, blockSize: int, key: seq<byte>, x: nat)
    requires blockSize > 0 && |key| > 0 && x < |data|
    ensures |CryptBlocks(data, blockSize, key)| == |data|
    ensures CryptBlocks(data, blockSize, key)[x] == Xor(data[x], KeystreamByte(InitialBox(key), x % blockSize))
  {
    var lo := BlockOf(x, blockSize);
    BlockOffset(x, blockSize, lo);
    var block := data[lo..lo + Min(blockSize, |data| - lo)];
    CipherLength(key, blockSize);
    MapBlocksAt(data, blockSize, Cipher(key), lo, x);
    CryptAt(block, key, x - lo);
  }

  /** rc4_encrypt_blocks keeps the length of its input. */
  lemma CryptBlocksLength(data: seq<byte>, blockSize: int, key: seq<byte>)
    requires data == [] || (blockSize > 0 && |key| > 0)
    ensures |CryptBlocks(data, blockSize, key)| == |data|
  {
    if data != [] {
      CipherLength(key, blockSize);
      MapBlocksLength(data, blockSize, Cipher(key));
    }
  }

  /** When one block covers the input, block mode is plain rc4_crypt. */
  lemma CryptBlocksSingle(data: seq<byte>, blockSize: int, key: seq<byte>)
    requires blockSize > 0 && |key| > 0 && blockSize >= |data|
    ensures CryptBlocks(data, blockSize, key) == Crypt(data, key)
  {
  }

  /** Block mode is its own inverse, for every block size. */
  lemma CryptBlocksInvolution(data: seq<byte>, blockSize: int, key: seq<byte>)
    requires data == [] || (blockSize > 0 && |key| > 0)
    ensures CryptBlocks(CryptBlocks(data, blockSize, key), blockSize, key) == data
  {
    if data != [] {
      var f := Cipher(key);
      forall b | 0 < |b| <= blockSize
        ensures |f(b)| == |b| && f(f(b)) == b
      {
        CryptInvolution(b, key);
      }
      assert forall b :: 0 < |b| <= blockSize ==> |f(b)| == |b|;
      MapBlocksInverse(data, blockSize, f, f);
    }
  }

  /** The loop invariant of rc4_encrypt_blocks, carried from one block to the next. */
  lemma CryptBlocksStep(data: seq<byte>, blockSize: int, key: seq<byte>, lo: nat, next: nat,
                        done: seq<byte>, encrypted: seq<byte>, result: seq<byte>)
    requires blockSize > 0 && |key| > 0 && lo < |data| && next == lo + blockSize
    requires done + MapBlocks(data[Min(lo, |data|)..], blockSize, Cipher(key)) == CryptBlocks(data, blockSize, key)
    requires encrypted == Crypt(data[lo..lo + Min(blockSize, |data| - lo)], key)
    requires result == done + encrypted
    ensures result + MapBlocks(data[Min(next, |data|)..], blockSize, Cipher(key)) == CryptBlocks(data, blockSize, key)
  {
    MapBlocksStep(data, blockSize, Cipher(key), lo, next, done, encrypted, result, CryptBlocks(data, blockSize, key));
  }

  /** Before the first block nothing is encrypted and the whole input is left. */
  lemma CryptBlocksStart(data: seq<byte>, blockSize: int, key: seq<byte>)
    requires blockSize > 0 && |key| > 0 && data != []
    ensures [] + MapBlocks(data[Min(0, |data|)..], blockSize, Cipher(key)) == CryptBlocks(data, blockSize, key)
  {
    assert data[0..] == data;
  }

  /** Once the offset passes the end of the input, nothing is left to encrypt. */
  lemma CryptBlocksEnd(data: seq<byte>, blockSize: int, key: seq<byte>, offset: nat, result: seq<byte>)
    requires blockSize > 0 && |key| > 0 && offset >= |data|
    requires result + MapBlocks(data[Min(offset, |data|)..], blockSize, Cipher(key)) == CryptBlocks(data, blockSize, key)
    ensures result == CryptBlocks(data, blockSize, key)
  {
    assert data[|data|..] == [];
  }

  /** rc4_encrypt_blocks: encrypt chunk by chunk, resetting the cipher for each. */
  method Rc4EncryptBlocks(data: seq<byte>, blockSize: int, key: seq<byte>) returns (r: seq<byte>)
    requires data == [] || (blockSize > 0 && |key| > 0)
    ensures r == CryptBlocks(data, blockSize, key)
  {
    if data == [] {
      return [];
    }
    var result: seq<byte> := [];
    var offset: nat := 0;
    var dataLen := |data|;
    CryptBlocksStart(data, blockSize, key);
    while offset < dataLen
      invariant result + MapBlocks(data[Min(offset, |data|)..], blockSize, Cipher(key)) == CryptBlocks(data, blockSize, key)
      decreases dataLen - offset
    {
      var currentBlockSize := Min(blockSize, dataLen - offset);
      var block := data[offset..offset + currentBlockSize];
      var encryptedBlock := Rc4Crypt(block, key);
      ghost var done, lo := result, offset;
      result := result + encryptedBlock;
      offset := offset + blockSize;
      CryptBlocksStep(data, blockSize, key, lo, offset, done, encryptedBlock, result);
    }
    CryptBlocksEnd(data, blockSize, key, offset, result);
    r := result;
  }

  /** rc4_decrypt_blocks: the same computation as rc4_encrypt_blocks. */
  method Rc4DecryptBlocks(data: seq<byte>, blockSize: int, key: seq<byte>) returns (r: seq<byte>)
    requires data == [] || (blockSize > 0 && |key| > 0)
    ensures r == CryptBlocks(data, blockSize, key)
  {
    r := Rc4EncryptBlocks(data, blockSize, key);
  }
}
