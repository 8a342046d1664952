/** Bitmaps over 32-bit words (nfa.c), with the set of their members as abstraction. */
module Bitfield {
  /** A uint32_t as its 32 bits, least significant first. */
  type Word = w: seq<bool> | |w| == 32 witness seq(32, _ => false)

  const ZERO: Word := seq(32, _ => false)

  ghost function Members(bf: seq<Word>): set<nat> {
    set i: nat | i < 32 * |bf| && bf[i / 32][i % 32]
  }

  /** bitfield_test: the word i >> 5, the bit i & 0x1f. */
  predicate Test(bf: seq<Word>, i: nat)
    requires i < 32 * |bf|
    ensures Test(bf, i) <==> i in Members(bf)
  {
    bf[i / 32][i % 32]
  }

  lemma SplitInjective(i: nat)
    ensures forall j: nat {:trigger j / 32} :: j / 32 == i / 32 && j % 32 == i % 32 ==> j == i
  {
  }

  function Set(bf: seq<Word>, i: nat): (r: seq<Word>)
    requires i < 32 * |bf|
    ensures |r| == |bf| && Members(r) == Members(bf) + {i}
  {
    var r := bf[i / 32 := bf[i / 32][i % 32 := true]];
    assert forall j: nat {:trigger r[j / 32]} | j < 32 * |bf| ::
      r[j / 32][j % 32] == (j == i || bf[j / 32][j % 32]) by { SplitInjective(i); }
    r
  }

  function Clear(bf: seq<Word>, i: nat): (r: seq<Word>)
    requires i < 32 * |bf|
    ensures |r| == |bf| && Members(r) == Members(bf) - {i}
  {
    var r := bf[i / 32 := bf[i / 32][i % 32 := false]];
    assert forall j: nat {:trigger r[j / 32]} | j < 32 * |bf| ::
      r[j / 32][j % 32] == (j != i && bf[j / 32][j % 32]) by { SplitInjective(i); }
    r
  }

  /** n words with every bit clear. */
  function Zeros(n: nat): (r: seq<Word>)
    ensures |r| == n && Members(r) == {}
  {
    var r := seq(n, _ => ZERO);
    assert forall i: nat {:trigger r[i / 32]} | i < 32 * n :: !r[i / 32][i % 32];
    r
  }

  /** realloc() to more words, the new ones zeroed. */
  function Grow(bf: seq<Word>, n: nat): (r: seq<Word>)
    requires |bf| <= n
    ensures |r| == n && Members(r) == Members(bf)
  {
    var r := bf + Zeros(n - |bf|);
    assert forall i: nat {:trigger r[i / 32]} | i < 32 * n ::
      r[i / 32][i % 32] == (i < 32 * |bf| && bf[i / 32][i % 32]);
    r
  }

  /** A bitmap is empty when all of its words are zero. */
  lemma EmptyMembers(bf: seq<Word>)
    ensures Members(bf) == {} <==> forall k :: 0 <= k < |bf| ==> bf[k] == ZERO
  {
    if Members(bf) == {} {
      forall k | 0 <= k < |bf|
        ensures bf[k] == ZERO
      {
        forall j | 0 <= j < 32
          ensures !bf[k][j]
        {
          assert 32 * k + j !in Members(bf);
          assert (32 * k + j) / 32 == k && (32 * k + j) % 32 == j;
        }
      }
    }
  }

  /** The words needed for n bits. */
  function Words(n: nat): (w: nat)
    ensures n <= 32 * w < n + 32
  {
    (n + 31) / 32
  }
}
