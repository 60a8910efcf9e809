/** Machine words, bytes and the byte-copy primitive shared by the models. */
module Words {

  const TWO_32: nat := 0x1_0000_0000

  type byte = b: int | 0 <= b < 256

  /** The value left in a ULONG after unbounded arithmetic. */
  function U32(x: int): (r: nat)
    ensures r < TWO_32
  {
    x % TWO_32
  }

  function Min(a: int, b: int): int {
    if a < b then a else b
  }

  function Max(a: int, b: int): int {
    if a < b then b else a
  }

  datatype Option<T> = None | Some(value: T)

  /** `s` with `data` written over it at position `at`. */
  function Patch<T>(s: seq<T>, at: nat, data: seq<T>): (r: seq<T>)
    requires at + |data| <= |s|
    ensures |r| == |s|
  {
    s[..at] + data + s[at + |data|..]
  }

  /** Where piece `f` of a buffer of equal pieces begins. */
  function Start(f: nat, size: nat): nat {
    if f == 0 then 0 else Start(f - 1, size) + size
  }

  lemma {:induction false} StartIsProduct(f: nat, size: nat)
    ensures Start(f, size) == f * size
  {
    if f > 0 {
      StartIsProduct(f - 1, size);
    }
  }

  lemma {:induction false} StartMono(f: nat, g: nat, size: nat)
    requires f <= g
    ensures Start(f, size) <= Start(g, size)
  {
    if f < g {
      StartMono(f, g - 1, size);
    }
  }

  lemma RemainderIsUnique(n: int, d: int, q: int, rem: int)
    requires 0 < d && n == d * q + rem && 0 <= rem < d
    ensures n % d == rem && n / d == q
  {
    var k := q - n / d;
    assert d * k == n % d - rem by {
      assert n == d * (n / d) + n % d;
      assert d * k == d * q - d * (n / d);
    }
    MultipleIsLarge(d, k);
  }

  lemma U32Small(x: nat)
    requires x < TWO_32
    ensures U32(x) == x
  {
  }

  /** A sum may be cut to 32 bits early. */
  lemma U32Add(a: int, b: int)
    ensures U32(U32(a) + b) == U32(a + b)
  {
    var q, y := a / TWO_32, U32(a) + b;
    assert a == TWO_32 * q + U32(a);
    assert a + b == TWO_32 * (q + y / TWO_32) + U32(y);
    RemainderIsUnique(a + b, TWO_32, q + y / TWO_32, U32(y));
  }

  lemma MultipleIsLarge(d: int, k: int)
    requires 0 < d
    ensures 1 <= k ==> d <= d * k
    ensures k <= -1 ==> d * k <= -d
  {
    if 1 <= k {
      assert d * k == d + d * (k - 1);
    } else if k <= -1 {
      assert d * k == d * (k + 1) - d;
    }
  }

  /** `b` holds `data` from position `at` on. */
  ghost predicate HoldsAt<T>(b: seq<T>, at: nat, data: seq<T>) {
    at + |data| <= |b| && b[at..at + |data|] == data
  }

  lemma HoldsParts<T>(s: seq<T>, at: nat, a: seq<T>, b: seq<T>)
    requires HoldsAt(s, at, a + b)
    ensures HoldsAt(s, at, a) && HoldsAt(s, at + |a|, b)
  {
    assert s[at..at + |a|] == s[at..at + |a + b|][..|a|];
    assert s[at + |a|..at + |a| + |b|] == s[at..at + |a + b|][|a|..];
  }

  lemma PatchIndex<T>(b: seq<T>, at: nat, d: seq<T>, i: nat)
    requires at + |d| <= |b| && i < |b|
    ensures Patch(b, at, d)[i] == if at <= i < at + |d| then d[i - at] else b[i]
  {
  }

  lemma PatchNothing<T>(b: seq<T>, at: nat, d: seq<T>)
    requires at <= |b| && d == []
    ensures Patch(b, at, d) == b
  {
  }

  lemma TailOfTail<T>(s: seq<T>, d: nat, k: nat)
    requires d + k <= |s|
    ensures s[d..][k..] == s[d + k..]
  {
  }

  lemma SplitTail<T>(a: seq<T>, b: seq<T>, k: nat)
    requires k <= |a|
    ensures (a + b)[..k] == a[..k] && (a + b)[k..] == a[k..] + b
  {
  }

  lemma PatchFront<T>(b: seq<T>, at: nat, d: seq<T>)
    requires at + |d| <= |b|
    ensures Patch(b, at, d)[..at + |d|] == b[..at] + d
    ensures Patch(b, at, d)[at + |d|..] == b[at..][|d|..]
  {
  }

  lemma AppendAssoc<T>(a: seq<T>, b: seq<T>, c: seq<T>)
    ensures a + b + c == a + (b + c)
  {
  }

  function Flatten<T>(ss: seq<seq<T>>): seq<T> {
    if ss == [] then [] else ss[0] + Flatten(ss[1..])
  }

  lemma {:induction false} FlattenAppend<T>(ss: seq<seq<T>>, s: seq<T>)
    ensures Flatten(ss + [s]) == Flatten(ss) + s
  {
    if ss == [] {
      assert ss + [s] == [s] && [s][1..] == [];
    } else {
      assert (ss + [s])[1..] == ss[1..] + [s];
      FlattenAppend(ss[1..], s);
    }
  }

  /** RtlCopyMemory: `n` bytes of `src` starting at `start` replace those of `dst` at `at`. */
  method CopyMemory(dst: array<byte>, at: nat, src: array<byte>, start: nat, n: nat)
    requires at + n <= dst.Length && start + n <= src.Length
    requires dst != src
    modifies dst
    ensures dst[..] == Patch(old(dst[..]), at, src[start..start + n])
  {
    for i := 0 to n
      invariant forall k :: at <= k < at + i ==> dst[k] == src[start + k - at]
      invariant forall k :: 0 <= k < dst.Length && !(at <= k < at + i) ==> dst[k] == old(dst[k])
    {
      dst[at + i] := src[start + i];
    }
  }
}
