/**
  The frame sampler: a forward-only decoder cursor read until its first
  failed read, keeping every n-th frame.
 */
module Sampler {
  import opened Wrappers
  import opened Frames

  /** The frames a decoder delivers before its first failed read (a `None`
      in its stream), in order. */
  function Decoded(s: seq<Option<Frame>>): (fs: seq<Frame>)
    ensures |fs| <= |s|
    ensures forall i :: 0 <= i < |fs| ==> s[i] == Some(fs[i])
    ensures |fs| < |s| ==> s[|fs|] == None
  {
    if s == [] || s[0].None? then [] else [s[0].value] + Decoded(s[1..])
  }

  /** How many reads a sampler spends on the stream s: every successful
      read, plus the failed one when the stream has one. */
  function Consumed(s: seq<Option<Frame>>): nat
  {
    if |Decoded(s)| < |s| then |Decoded(s)| + 1 else |s|
  }

  /** The elements of xs whose index is a multiple of n, in order. Defined
      the way the sampler builds it: one element at a time at the end. */
  function EveryNth<T>(xs: seq<T>, n: nat): (r: seq<T>)
    requires n >= 1
  {
    if xs == [] then []
    else EveryNth(xs[..|xs| - 1], n) + (if (|xs| - 1) % n == 0 then [xs[|xs| - 1]] else [])
  }

  lemma {:induction false} MulAtLeast(x: int, n: int)
    requires x >= 1 && n >= 0
    ensures x * n >= n
  {
    if x > 1 {
      MulAtLeast(x - 1, n);
      assert x * n == (x - 1) * n + n;
    }
  }

  /** Euclidean division is determined by quotient and remainder. */
  lemma DivUnique(a: int, n: int, q: int, r: int)
    requires n >= 1 && 0 <= r < n && a == q * n + r
    ensures a / n == q && a % n == r
  {
    var q', r' := a / n, a % n;
    assert a == q' * n + r';
    assert (q - q') * n == r' - r by {
      assert q * n - q' * n == (q - q') * n;
    }
    if q > q' {
      MulAtLeast(q - q', n);
    } else if q < q' {
      MulAtLeast(q' - q, n);
    }
  }

  /** Any q with q * n <= a is at most a / n. */
  lemma DivLowerBound(a: int, n: int, q: int)
    requires n >= 1 && q * n <= a
    ensures q <= a / n
  {
    var d, r := a / n, a % n;
    assert a == d * n + r;
    if d < q {
      assert q * n - d * n == (q - d) * n;
      MulAtLeast(q - d, n);
    }
  }

  /** A multiple of n is its quotient times n. */
  lemma ExactQuotient(i: nat, n: nat)
    requires n >= 1 && i % n == 0
    ensures i / n * n == i && (i / n + 1) * n == i + n
  {
    var q := i / n;
    assert i == q * n;
    assert (q + 1) * n == q * n + n;
  }

  /** One more index m past a prefix of length m adds one element to the
      count of multiples of n exactly when m is such a multiple. */
  lemma CountStep(m: nat, n: nat)
    requires n >= 1
    ensures (m + n) / n == (m + n - 1) / n + (if m % n == 0 then 1 else 0)
    ensures m % n == 0 ==> (m + n - 1) / n * n == m
  {
    var q, r := m / n, m % n;
    assert m == q * n + r;
    assert (q + 1) * n == q * n + n;
    DivUnique(m + n, n, q + 1, r);
    if r == 0 {
      DivUnique(m + n - 1, n, q, n - 1);
    } else {
      DivUnique(m + n - 1, n, q + 1, r - 1);
    }
  }

  /** EveryNth keeps ceil(|xs| / n) elements, and its k-th element is the
      one at index k * n. */
  lemma {:induction false} EveryNthAt<T>(xs: seq<T>, n: nat)
    requires n >= 1
    ensures |EveryNth(xs, n)| == (|xs| + n - 1) / n
    ensures forall k :: 0 <= k < |EveryNth(xs, n)| ==> k * n < |xs| && EveryNth(xs, n)[k] == xs[k * n]
  {
    if xs != [] {
      var m := |xs| - 1;
      var init := xs[..m];
      EveryNthAt(init, n);
      CountStep(m, n);
      var r := EveryNth(xs, n);
      forall k | 0 <= k < |r|
        ensures k * n < |xs| && r[k] == xs[k * n]
      {
        if k < |EveryNth(init, n)| {
          assert r[k] == EveryNth(init, n)[k];
        } else {
          assert m % n == 0 && k == (m + n - 1) / n;
        }
      }
    }
  }

  /** Every index i < |xs| with i % n == 0 is kept, at position i / n. */
  lemma EveryNthKeepsMultiples<T>(xs: seq<T>, n: nat, i: nat)
    requires n >= 1
    requires i < |xs| && i % n == 0
    ensures i / n < |EveryNth(xs, n)| && EveryNth(xs, n)[i / n] == xs[i]
  {
    EveryNthAt(xs, n);
    ExactQuotient(i, n);
    DivLowerBound(|xs| + n - 1, n, i / n + 1);
  }

  /** Whatever the stride, the first element is kept, so nothing is kept
      only when there is nothing. */
  lemma EveryNthIsEmptyIff<T>(xs: seq<T>, n: nat)
    requires n >= 1
    ensures EveryNth(xs, n) == [] <==> xs == []
  {
    if xs != [] {
      EveryNthKeepsMultiples(xs, n, 0);
    }
  }

  /** A stride of 1 keeps everything. */
  lemma {:induction false} EveryNthOfOne<T>(xs: seq<T>)
    ensures EveryNth(xs, 1) == xs
  {
    if xs != [] {
      EveryNthOfOne(xs[..|xs| - 1]);
    }
  }

  /** Everything EveryNth keeps comes from xs. */
  lemma {:induction false} EveryNthIsDrawnFrom<T>(xs: seq<T>, n: nat)
    requires n >= 1
    ensures forall x :: x in EveryNth(xs, n) ==> x in xs
  {
    if xs != [] {
      EveryNthIsDrawnFrom(xs[..|xs| - 1], n);
    }
  }

  /**
    A decoder handle: the stream it would deliver, read after read (`None`
    where a read fails), the frame size it reports, and its read cursor.
   */
  class VideoCapture {
    const stream: seq<Option<Frame>>
    const width: nat
    const height: nat
    var pos: nat

    ghost predicate Valid()
      reads this
    {
      pos <= |stream| &&
      forall i :: 0 <= i < |stream| && stream[i].Some? ==> IsGrid(stream[i].value, height, width)
    }

    /** The part of the stream not read yet. */
    function Remaining(): seq<Option<Frame>>
      reads this
      requires pos <= |stream|
    {
      stream[pos..]
    }

    /** Opens a stream whose frames all have the reported size. */
    constructor (stream: seq<Option<Frame>>, width: nat, height: nat)
      requires forall i :: 0 <= i < |stream| && stream[i].Some? ==> IsGrid(stream[i].value, height, width)
      ensures Valid()
      ensures this.stream == stream && this.width == width && this.height == height && pos == 0
    {
      this.stream := stream;
      this.width := width;
      this.height := height;
      pos := 0;
    }

    /** video.read(): the next item of the stream, moving the cursor one step;
        past the end, a failed read that leaves the cursor where it is. */
    method Read() returns (frame: Option<Frame>)
      requires Valid()
      modifies this
      ensures Valid()
      ensures old(pos) < |stream| ==> frame == stream[old(pos)] && pos == old(pos) + 1
      ensures old(pos) == |stream| ==> frame == None && pos == old(pos)
    {
      if pos < |stream| {
        frame := stream[pos];
        pos := pos + 1;
      } else {
        frame := None;
      }
    }
  }

  /**
    iter_each_n_frame: read until the first failed read, keeping the frames
    whose index (counted from the cursor's starting point) is a multiple of
    eachN. The cursor stops right after the failed read.
   */
  method IterEachNFrame(video: VideoCapture, eachN: nat) returns (sampled: seq<Frame>)
    requires video.Valid() && eachN >= 1
    modifies video
    ensures video.Valid()
    ensures sampled == EveryNth(Decoded(old(video.Remaining())), eachN)
    ensures video.pos == old(video.pos) + Consumed(old(video.Remaining()))
    ensures forall k :: 0 <= k < |sampled| ==> IsGrid(sampled[k], video.height, video.width)
  {
    ghost var rest := video.Remaining();
    ghost var start := video.pos;
    ghost var decoded := Decoded(rest);
    sampled := [];
    var frameI := 0;
    while true
      invariant video.Valid()
      invariant frameI <= |decoded|
      invariant video.pos == start + frameI
      invariant sampled == EveryNth(decoded[..frameI], eachN)
      invariant forall k :: 0 <= k < |sampled| ==> IsGrid(sampled[k], video.height, video.width)
      decreases |video.stream| - video.pos
    {
      var frame := video.Read();
      if frame.None? {
        break;
      }
      assert frameI < |decoded| && frame.value == decoded[frameI] by {
        assert rest[frameI] == frame;
      }
      assert decoded[..frameI + 1][..frameI] == decoded[..frameI];
      if frameI % eachN == 0 {
        sampled := sampled + [frame.value];
      }
      frameI := frameI + 1;
    }
    assert decoded[..frameI] == decoded;
  }
}
