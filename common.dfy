/** Small value types shared by every module of the model. */
module Common {

  /** An optional value; `None` stands for JavaScript's `undefined`. */
  datatype Option<+T> = None | Some(value: T)

  /** The outcome of an operation that can throw. */
  datatype Result<+T, +E> = Ok(value: T) | Err(error: E)

  /** One byte of a `Uint8Array`. */
  type Byte = b: int | 0 <= b < 256

  /** A chunk of bytes, as delivered by a stream reader. */
  type Chunk = seq<Byte>

  const LF: Byte := 0x0A
  const CR: Byte := 0x0D

  /** The concatenation of a list of chunks, in order. */
  function Flatten(chunks: seq<Chunk>): Chunk
  {
    if chunks == [] then [] else chunks[0] + Flatten(chunks[1..])
  }

  /** The sum of the chunk lengths (`getTotalBytesReady_`): the length of their concatenation. */
  function TotalLength(chunks: seq<Chunk>): nat
  {
    |Flatten(chunks)|
  }

  lemma {:induction false} FlattenAppend(a: seq<Chunk>, b: seq<Chunk>)
    ensures Flatten(a + b) == Flatten(a) + Flatten(b)
  {
    if a == [] {
      assert a + b == b;
    } else {
      assert (a + b)[1..] == a[1..] + b;
      FlattenAppend(a[1..], b);
    }
  }

  /** Extending the prefix by one chunk extends its bytes by that chunk. */
  lemma FlattenPrefixStep(cs: seq<Chunk>, i: nat)
    requires i < |cs|
    ensures Flatten(cs[..i + 1]) == Flatten(cs[..i]) + cs[i]
  {
    assert cs[..i + 1] == cs[..i] + [cs[i]];
    FlattenAppend(cs[..i], [cs[i]]);
    assert Flatten([cs[i]]) == cs[i] + Flatten([]);
  }

  /** A prefix of a chunk list holds no more bytes than the list. */
  lemma PrefixLength(cs: seq<Chunk>, k: nat)
    requires k <= |cs|
    ensures TotalLength(cs[..k]) <= TotalLength(cs)
  {
    assert cs == cs[..k] + cs[k..];
    FlattenAppend(cs[..k], cs[k..]);
  }

  /** The bytes of a non-empty chunk list: its first chunk, then the rest. */
  lemma FlattenHead(cs: seq<Chunk>)
    requires cs != []
    ensures Flatten(cs) == cs[0] + Flatten(cs[1..])
    ensures TotalLength(cs) == |cs[0]| + TotalLength(cs[1..])
  {
  }

  /** Splitting a chunk at `diff` and putting its tail back loses no byte. */
  lemma SplitChunk(item: Chunk, rest: Chunk, diff: nat)
    requires diff <= |item|
    ensures item[..diff] + (item[diff..] + rest) == item + rest
  {
    assert item == item[..diff] + item[diff..];
  }

  /** Pointwise reading of a slice equation. */
  lemma SliceAt(s: seq<Byte>, i: nat, t: seq<Byte>)
    requires i + |t| <= |s| && s[i..i + |t|] == t
    ensures forall k :: i <= k < i + |t| ==> s[k] == t[k - i]
  {
    forall k | i <= k < i + |t|
      ensures s[k] == t[k - i]
    {
      assert s[i..i + |t|][k - i] == s[k];
    }
  }

  /** A slice equal to a concatenation splits into slices equal to the parts. */
  lemma SplitSlice(s: seq<Byte>, p: nat, a: seq<Byte>, b: seq<Byte>)
    requires p + |a| + |b| <= |s| && s[p..p + |a| + |b|] == a + b
    ensures s[p..p + |a|] == a
    ensures s[p + |a|..p + |a| + |b|] == b
  {
    assert s[p..p + |a|] == s[p..p + |a| + |b|][..|a|];
    assert s[p + |a|..p + |a| + |b|] == s[p..p + |a| + |b|][|a|..];
  }

  /** The byte at `p` where `s[p..e]` spells `t`: the first of `t`, or the byte at `e` when `t` is empty. */
  lemma HeadOrNext(s: seq<Byte>, p: nat, e: nat, t: seq<Byte>)
    requires p <= e < |s| && s[p..e] == t
    ensures s[p] == if t != [] then t[0] else s[e]
  {
    if t != [] {
      assert s[p..e][0] == s[p];
    }
  }

  /** A slice equal to three concatenated parts splits into slices equal to the parts. */
  lemma SplitSlice3(s: seq<Byte>, p: nat, a: seq<Byte>, b: seq<Byte>, c: seq<Byte>)
    requires p + |a| + |b| + |c| <= |s| && s[p..p + |a| + |b| + |c|] == a + b + c
    ensures s[p..p + |a|] == a
    ensures s[p + |a|..p + |a| + |b|] == b
    ensures s[p + |a| + |b|..p + |a| + |b| + |c|] == c
  {
    assert a + b + c == a + (b + c);
    SplitSlice(s, p, a, b + c);
    SplitSlice(s, p + |a|, b, c);
  }
}
