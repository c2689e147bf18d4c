/**
 * The chunking engine of the reply manager (`splitMessage`): a text is cut
 * into contiguous, non-overlapping slices of a fixed size, starting at
 * offset 0. The engine is generic in the element type; the reply sequencer
 * applies it to UTF-16 code units, the units `String.prototype.substring`
 * counts, so a slice boundary may fall inside a surrogate pair.
 */
module Chunking {
  import opened Wrappers

  /** Discord's single-message ceiling; the default chunk size. */
  const MaxMessageLength: nat := 2000

  function Min(a: int, b: int): int {
    if a <= b then a else b
  }

  /** Ceiling of `n / d` for non-negative `n`. */
  function CeilDiv(n: nat, d: nat): nat
    requires d > 0
  {
    (n + d - 1) / d
  }

  /**
   * JavaScript's `String.prototype.substring` on non-negative indices: both
   * indices are clamped to the length and swapped when given in decreasing
   * order.
   */
  function Substring<T>(s: seq<T>, start: nat, end: nat): (r: seq<T>)
    ensures start <= end <= |s| ==> r == s[start..end]
    ensures start <= |s| <= end ==> r == s[start..]
    ensures end <= start <= |s| ==> r == s[end..start]
    ensures end <= |s| <= start ==> r == s[end..]
    ensures |s| <= start && |s| <= end ==> r == []
  {
    var a := Min(start, |s|);
    var b := Min(end, |s|);
    if a <= b then s[a..b] else s[b..a]
  }

  /** The concatenation of a list of chunks, first to last. */
  function Flatten<T>(chunks: seq<seq<T>>): seq<T>
  {
    if |chunks| == 0 then [] else chunks[0] + Flatten(chunks[1..])
  }

  /**
   * `chunks` is a fixed-size chunking with slice size `size`: every chunk but
   * the last holds exactly `size` elements, and the last one between 1 and
   * `size`.
   */
  predicate IsFixedChunking<T>(chunks: seq<seq<T>>, size: nat)
  {
    && (forall k :: 0 <= k < |chunks| - 1 ==> |chunks[k]| == size)
    && (|chunks| > 0 ==> 0 < |chunks[|chunks| - 1]| <= size)
  }

  /**
   * The chunks the loop of `splitMessage` pushes from offset `i` on: one
   * `substring(i, i + maxLength)` per iteration while `i < text.length`.
   */
  function SplitFrom<T>(text: seq<T>, i: nat, maxLength: nat): (chunks: seq<seq<T>>)
    requires maxLength > 0
    ensures chunks == [] <==> |text| <= i
    ensures i <= |text| ==> Flatten(chunks) == text[i..]
    decreases |text| - i
  {
    if i < |text| then
      var rest := SplitFrom(text, i + maxLength, maxLength);
      var chunk := Substring(text, i, i + maxLength);
      assert ([chunk] + rest)[1..] == rest;
      assert i + maxLength <= |text| ==> text[i..] == chunk + text[i + maxLength..];
      [chunk] + rest
    else
      []
  }

  /**
   * `splitMessage(text, maxLength)`: an absent or empty text gives no chunk
   * at all, any other text the fixed-size slices of it, in order.
   */
  function SplitMessage<T>(text: Option<seq<T>>, maxLength: nat): (chunks: seq<seq<T>>)
    requires maxLength > 0
    ensures chunks == [] <==> text == None || text == Some([])
    ensures Flatten(chunks) == text.GetOr([])
    ensures IsFixedChunking(chunks, maxLength)
  {
    if text.None? || |text.value| == 0 then
      []
    else
      SplitFromFixed(text.value, 0, maxLength);
      SplitFrom(text.value, 0, maxLength)
  }

  /** Every chunk the loop pushes is a full slice, except a shorter, non-empty last one. */
  lemma {:induction false} SplitFromFixed<T>(text: seq<T>, i: nat, maxLength: nat)
    requires maxLength > 0
    ensures IsFixedChunking(SplitFrom(text, i, maxLength), maxLength)
    decreases |text| - i
  {
    if i < |text| {
      var chunks := SplitFrom(text, i, maxLength);
      var rest := SplitFrom(text, i + maxLength, maxLength);
      SplitFromFixed(text, i + maxLength, maxLength);
      assert chunks[1..] == rest;
      forall k | 0 <= k < |chunks| - 1
        ensures |chunks[k]| == maxLength
      {
        if k > 0 {
          assert chunks[k] == rest[k - 1];
        }
      }
    }
  }

  /** The slice `splitMessage` produces as chunk `k` of `text`. */
  function ChunkAt<T>(text: seq<T>, size: nat, k: nat): seq<T>
    requires size > 0 && k * size <= |text|
  {
    text[k * size..Min((k + 1) * size, |text|)]
  }

  lemma MulSucc(n: int, d: int)
    ensures (n + 1) * d == n * d + d
  {
  }

  lemma MulStrict(a: int, b: int, d: int)
    requires d > 0 && a * d < b * d
    ensures a < b
  {
  }

  /** The loop from offset `i` pushes `ceil((|text| - i) / maxLength)` chunks. */
  lemma {:induction false} SplitFromLength<T>(text: seq<T>, i: nat, maxLength: nat)
    requires maxLength > 0 && i <= |text|
    ensures var n := |SplitFrom(text, i, maxLength)|;
      (n - 1) * maxLength < |text| - i <= n * maxLength
    decreases |text| - i
  {
    if i < |text| && i + maxLength < |text| {
      SplitFromLength(text, i + maxLength, maxLength);
      var m := |SplitFrom(text, i + maxLength, maxLength)|;
      assert |SplitFrom(text, i, maxLength)| == m + 1;
      MulSucc(m, maxLength);
      MulSucc(m - 1, maxLength);
    }
  }

  /** Integer division has a unique quotient. */
  lemma DivUnique(x: int, d: int, q: int)
    requires d > 0 && q * d <= x < (q + 1) * d
    ensures x / d == q
  {
    var r := x / d;
    assert x == r * d + x % d;
    MulSucc(r, d);
    MulStrict(q, r + 1, d);
    MulStrict(r, q + 1, d);
  }

  /**
   * The number `n` of chunks of a present text is the least one whose `n`
   * full slices cover the text.
   */
  lemma ChunkCountBounds<T>(text: seq<T>, maxLength: nat)
    requires maxLength > 0
    ensures var n := |SplitMessage(Some(text), maxLength)|;
      (n - 1) * maxLength < |text| <= n * maxLength
  {
    if |text| > 0 {
      SplitFromLength(text, 0, maxLength);
    }
  }

  /** A present text is cut into `ceil(|text| / maxLength)` chunks. */
  lemma ChunkCount<T>(text: seq<T>, maxLength: nat)
    requires maxLength > 0
    ensures |SplitMessage(Some(text), maxLength)| == CeilDiv(|text|, maxLength)
  {
    var n := |SplitMessage(Some(text), maxLength)|;
    ChunkCountBounds(text, maxLength);
    MulSucc(n - 1, maxLength);
    DivUnique(|text| + maxLength - 1, maxLength, n);
  }

  /** `k * d`, spelled out as repeated addition so that proofs stay linear. */
  function Times(k: nat, d: nat): nat
  {
    if k == 0 then 0 else Times(k - 1, d) + d
  }

  lemma {:induction false} TimesIsProduct(k: nat, d: nat)
    ensures Times(k, d) == k * d
  {
    if k > 0 {
      TimesIsProduct(k - 1, d);
      MulSucc(k - 1, d);
    }
  }

  /** After its first chunk, the loop goes on from the next slice. */
  lemma SplitFromTail<T>(text: seq<T>, i: nat, maxLength: nat)
    requires maxLength > 0 && i < |text|
    ensures SplitFrom(text, i, maxLength)[1..] == SplitFrom(text, i + maxLength, maxLength)
  {
  }

  /** Dropping `k` chunks is the same as starting the loop `k` slices later. */
  lemma {:induction false} SplitFromDrop<T>(text: seq<T>, i: nat, maxLength: nat, k: nat)
    requires maxLength > 0 && k <= |SplitFrom(text, i, maxLength)|
    ensures SplitFrom(text, i, maxLength)[k..] == SplitFrom(text, i + Times(k, maxLength), maxLength)
    decreases k
  {
    if k > 0 {
      var chunks := SplitFrom(text, i, maxLength);
      SplitFromTail(text, i, maxLength);
      assert chunks[k..] == chunks[1..][k - 1..];
      SplitFromDrop(text, i + maxLength, maxLength, k - 1);
    }
  }

  /**
   * Chunk `k` of `splitMessage(text, maxLength)` is the slice of `text` from
   * `k * maxLength` to `min((k + 1) * maxLength, |text|)`.
   */
  lemma ChunkContents<T>(text: seq<T>, maxLength: nat, k: nat)
    requires maxLength > 0 && k < |SplitMessage(Some(text), maxLength)|
    ensures k * maxLength < |text|
    ensures SplitMessage(Some(text), maxLength)[k] == ChunkAt(text, maxLength, k)
  {
    var chunks := SplitMessage(Some(text), maxLength);
    SplitFromDrop(text, 0, maxLength, k);
    TimesIsProduct(k, maxLength);
    assert chunks[k] == chunks[k..][0];
    MulSucc(k, maxLength);
  }

  lemma {:induction false} FlattenNonEmpty<T>(chunks: seq<seq<T>>)
    requires |chunks| > 0 && |chunks[|chunks| - 1]| > 0
    ensures |Flatten(chunks)| > 0
  {
    if |chunks| > 1 {
      FlattenNonEmpty(chunks[1..]);
    }
  }

  lemma {:induction false} SplitFromUnique<T>(text: seq<T>, i: nat, maxLength: nat, chunks: seq<seq<T>>)
    requires maxLength > 0 && i <= |text|
    requires IsFixedChunking(chunks, maxLength) && Flatten(chunks) == text[i..]
    ensures chunks == SplitFrom(text, i, maxLength)
    decreases |chunks|
  {
    if |chunks| == 1 {
      assert Flatten(chunks[1..]) == [];
      assert chunks[0] == text[i..];
    } else if |chunks| > 1 {
      var rest := chunks[1..];
      assert chunks[0] + Flatten(rest) == text[i..];
      assert text[i..i + maxLength] == chunks[0];
      assert Flatten(rest) == text[i + maxLength..];
      FlattenNonEmpty(rest);
      SplitFromUnique(text, i + maxLength, maxLength, rest);
    }
  }

  /**
   * Fixed-size slicing is the only way to cut a text into pieces of which all
   * but a non-empty last one have the full size: any such list whose
   * concatenation is `text` is exactly what `splitMessage` returns.
   */
  lemma FixedChunkingUnique<T>(text: seq<T>, maxLength: nat, chunks: seq<seq<T>>)
    requires maxLength > 0
    requires IsFixedChunking(chunks, maxLength) && Flatten(chunks) == text
    ensures chunks == SplitMessage(Some(text), maxLength)
  {
    if text != [] {
      SplitFromUnique(text, 0, maxLength, chunks);
    } else if chunks != [] {
      FlattenNonEmpty(chunks);
    }
  }
}
