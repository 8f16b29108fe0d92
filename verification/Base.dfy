/** Constants and machine words shared by every component. */
module Base {

  const WORD_LIMIT: nat := 0x1_0000_0000
  const ENOENT: int := 2
  const EINTR: int := 4
  const EIO: int := 5
  const ENOMEM: int := 12
  const ENOTDIR: int := 20
  const EINVAL: int := 22
  const EMFILE: int := 24
  const EBADF: int := 9
  const EPIPE: int := 32

  /** The numbers programs see, all different and all below 4096. */
  lemma ErrorNumbers()
    ensures [ENOENT, EINTR, EIO, EBADF, ENOMEM, ENOTDIR, EINVAL, EMFILE, EPIPE] == [2, 4, 5, 9, 12, 20, 22, 24, 32]
  {
  }

  /** An unsigned byte. */
  type u8 = x: nat | x < 256

  /** An unsigned 32-bit value. */
  type u32 = x: nat | x < WORD_LIMIT

  function Min(a: int, b: int): int { if a < b then a else b }

  /** Nested finite sets compare by size; equal sizes make them equal. */
  lemma SubsetSize<T>(a: set<T>, b: set<T>)
    requires a <= b
    ensures |a| <= |b|
    ensures |a| == |b| ==> a == b
  {
    assert b == a + (b - a);
    assert |b| == |a| + |b - a|;
  }

  ghost predicate NoDup(l: seq<nat>) { forall i, j | 0 <= i < j < |l| :: l[i] != l[j] }

  /** list_del: the first occurrence goes, if there is one. */
  function Del(l: seq<nat>, x: nat): seq<nat> {
    if l == [] then [] else if l[0] == x then l[1..] else [l[0]] + Del(l[1..], x)
  }

  lemma {:induction false} DelFirst(l: seq<nat>, x: nat, i: nat)
    requires i <= |l| && x !in l[..i] && (i < |l| ==> l[i] == x)
    ensures Del(l, x) == if i < |l| then l[..i] + l[i + 1..] else l
  {
    if i > 0 {
      assert l[0] in l[..i];
      assert forall y :: y in l[1..][..i - 1] ==> y in l[..i];
      DelFirst(l[1..], x, i - 1);
      assert l == [l[0]] + l[1..];
      if i < |l| { assert l[1..][i..] == l[i + 1..] && [l[0]] + l[1..][..i - 1] == l[..i]; }
    }
  }

  lemma ConsNoDup(x: nat, l: seq<nat>)
    ensures x !in l && NoDup(l) ==> NoDup([x] + l)
    ensures forall y :: y in [x] + l <==> y == x || y in l
  {
  }

  lemma {:induction false} DelSpec(l: seq<nat>, x: nat)
    requires NoDup(l)
    ensures NoDup(Del(l, x)) && forall y :: y in Del(l, x) <==> y in l && y != x
  {
    if l != [] {
      DelSpec(l[1..], x);
      assert forall y :: y in l <==> y == l[0] || y in l[1..];
      assert l[0] !in l[1..];
      ConsNoDup(l[0], Del(l[1..], x));
    }
  }
}
