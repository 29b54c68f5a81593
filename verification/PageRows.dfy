/** Pages of pixels, and the reference page a stripe decoder must reproduce. */
module PageRows {
  /** One RGB pixel; the source moves pixels as three bytes. */
  type Pixel = x: int | 0 <= x < 0x100_0000
  const WHITE: Pixel := 0xff_ffff

  datatype Rotation = Rot0 | Rot90 | Rot180 | Rot270

  predicate Sideways(rotation: Rotation) {
    rotation == Rot90 || rotation == Rot270
  }

  function White(n: nat): (s: seq<Pixel>)
    ensures |s| == n
  {
    seq(n, _ => WHITE)
  }

  /** `data` written at q, nothing else changed. */
  ghost predicate Written(now: seq<Pixel>, before: seq<Pixel>, q: nat, data: seq<Pixel>) {
    && q + |data| <= |before|
    && now == before[..q] + data + before[q + |data|..]
  }

  /** Cells [from, from + n) of row k of a page part that starts at `at` and is w wide. */
  function Part(s: seq<Pixel>, at: nat, k: nat, w: nat, from: nat, n: nat): seq<Pixel> {
    var q := at + k * w + from;
    if q + n <= |s| then s[q..q + n] else []
  }

  lemma RowStart(k: nat, rows: nat, w: nat)
    requires k < rows
    ensures k * w + w <= rows * w
    ensures (k + 1) * w == k * w + w
  {
    assert (k + 1) * w <= rows * w;
  }

  /** Writing a part of row r sets that part. */
  lemma PartSet(now: seq<Pixel>, before: seq<Pixel>, at: nat, r: nat, w: nat, from: nat, data: seq<Pixel>)
    requires Written(now, before, at + r * w + from, data)
    ensures |now| == |before|
    ensures Part(now, at, r, w, from, |data|) == data
  {
  }

  /** ... and no part of another row, nor a disjoint part of the same row. */
  lemma PartKept(now: seq<Pixel>, before: seq<Pixel>, at: nat, r: nat, w: nat, from: nat, data: seq<Pixel>,
                 k: nat, f: nat, n: nat)
    requires from + |data| <= w && f + n <= w
    requires Written(now, before, at + r * w + from, data)
    requires k != r || f + n <= from || from + |data| <= f
    ensures Part(now, at, k, w, f, n) == Part(before, at, k, w, f, n)
  {
    if k < r {
      RowStart(k, r, w);
    } else if k > r {
      RowStart(r, k, w);
    }
    SliceKept(now, before, at + r * w + from, data, at + k * w + f, n);
  }

  lemma SliceKept(now: seq<Pixel>, before: seq<Pixel>, q: nat, data: seq<Pixel>, p: nat, n: nat)
    requires Written(now, before, q, data)
    requires p + n <= q || q + |data| <= p
    ensures p + n <= |before| ==> now[p..p + n] == before[p..p + n]
  {
    if p + n <= |before| {
      assert now[p..p + n] == before[p..p + n];
    }
  }

  function Flatten(rows: seq<seq<Pixel>>): seq<Pixel> {
    if rows == [] then [] else Flatten(rows[..|rows| - 1]) + rows[|rows| - 1]
  }

  ghost predicate Uniform(rows: seq<seq<Pixel>>, w: nat) {
    forall k | 0 <= k < |rows| :: |rows[k]| == w
  }

  /** Consecutive groups of rows concatenate. */
  lemma {:induction false} FlattenConcat(a: seq<seq<Pixel>>, b: seq<seq<Pixel>>)
    ensures Flatten(a + b) == Flatten(a) + Flatten(b)
  {
    if b == [] {
      assert a + b == a;
    } else {
      var last := |b| - 1;
      FlattenConcat(a, b[..last]);
      assert (a + b)[..|a + b| - 1] == a + b[..last];
    }
  }

  lemma WholeRow(s: seq<Pixel>, at: nat, k: nat, w: nat)
    requires at + k * w + w <= |s|
    ensures k * w >= 0 && Part(s, at, k, w, 0, w) == s[at + k * w..at + k * w + w]
  {
  }

  /** A page part whose rows are the given ones is their concatenation. */
  lemma {:induction false} FlattenFromParts(s: seq<Pixel>, at: nat, w: nat, rows: seq<seq<Pixel>>)
    requires at + |rows| * w <= |s| && Uniform(rows, w)
    requires forall k: nat | k < |rows| :: Part(s, at, k, w, 0, w) == rows[k]
    ensures s[at..at + |rows| * w] == Flatten(rows)
  {
    hide Part;
    var n := |rows|;
    if n > 0 {
      RowStart(n - 1, n, w);
      WholeRow(s, at, n - 1, w);
      FlattenFromParts(s, at, w, rows[..n - 1]);
      assert Part(s, at, n - 1, w, 0, w) == rows[n - 1];
      var m := at + (n - 1) * w;
      assert s[at..m + w] == s[at..m] + s[m..m + w];
    }
  }
}
