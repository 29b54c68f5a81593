/** The run-length encoder of the PCLm writer, against the RunLengthDecode filter of section 7.4.5 of
    ISO 32000-1. */
module RunLength {
  import opened Common

  datatype Decoded = Bytes(data: seq<Byte>) | Malformed

  function Repeat(c: Byte, n: nat): (s: seq<Byte>)
    ensures |s| == n
  {
    seq(n, _ => c)
  }

  function Prepend(x: seq<Byte>, d: Decoded): Decoded {
    match d
    case Bytes(y) => Bytes(x + y)
    case Malformed => Malformed
  }

  /** Length in bytes of the first block of s. */
  function BlockSize(s: seq<Byte>): nat
    requires s != []
  {
    if s[0] < 128 then s[0] + 2 else 2
  }

  predicate HasBlock(s: seq<Byte>) {
    s != [] && s[0] != 128 && BlockSize(s) <= |s|
  }

  /** What the first block stands for: a length byte up to 127 announces length + 1 literal bytes, one from
      129 on a byte to be repeated 257 - length times. */
  function Expand(s: seq<Byte>): seq<Byte>
    requires HasBlock(s)
  {
    if s[0] < 128 then s[1..s[0] + 2] else Repeat(s[1], 257 - s[0])
  }

  /** The filter: blocks up to the end marker 128. */
  function Decode(s: seq<Byte>): Decoded {
    if HasBlock(s) then Prepend(Expand(s), Decode(s[BlockSize(s)..]))
    else if s != [] && s[0] == 128 then Bytes([])
    else Malformed
  }

  /** Decoding of complete blocks without an end marker. */
  function Blocks(s: seq<Byte>): Decoded {
    if s == [] then Bytes([])
    else if HasBlock(s) then Prepend(Expand(s), Blocks(s[BlockSize(s)..]))
    else Malformed
  }

  lemma FirstBlockKept(a: seq<Byte>, rest: seq<Byte>)
    requires HasBlock(a)
    ensures HasBlock(a + rest) && BlockSize(a + rest) == BlockSize(a) && Expand(a + rest) == Expand(a)
    ensures (a + rest)[BlockSize(a)..] == a[BlockSize(a)..] + rest
  {
    if a[0] < 128 {
      assert (a + rest)[1..a[0] + 2] == a[1..a[0] + 2];
    }
  }

  lemma PrependTwice(x: seq<Byte>, y: seq<Byte>, d: Decoded)
    ensures Prepend(x, Prepend(y, d)) == Prepend(x + y, d)
  {
    if d.Bytes? {
      assert x + (y + d.data) == (x + y) + d.data;
    }
  }

  lemma {:induction false} DecodeAfterBlocks(a: seq<Byte>, rest: seq<Byte>)
    requires Blocks(a).Bytes?
    ensures Decode(a + rest) == Prepend(Blocks(a).data, Decode(rest))
  {
    if a == [] {
      assert a + rest == rest;
      PrependTwice([], [], Decode(rest));
    } else {
      var tail := a[BlockSize(a)..];
      DecodeAfterBlocks(tail, rest);
      FirstBlockKept(a, rest);
      PrependTwice(Expand(a), Blocks(tail).data, Decode(rest));
    }
  }

  lemma {:induction false} BlocksConcat(a: seq<Byte>, b: seq<Byte>)
    requires Blocks(a).Bytes?
    ensures Blocks(a + b) == Prepend(Blocks(a).data, Blocks(b))
  {
    if a == [] {
      assert a + b == b;
      PrependTwice([], [], Blocks(b));
    } else {
      var tail := a[BlockSize(a)..];
      BlocksConcat(tail, b);
      FirstBlockKept(a, b);
      PrependTwice(Expand(a), Blocks(tail).data, Blocks(b));
    }
  }

  // ----- code of one run and of one literal -----

  /** Blocks of a run; a remainder of one gives the length byte 256, which wraps to 0: a literal of
      one byte. */
  function RunCode(c: Byte, n: nat): seq<Byte> {
    if n > 128 then [129, c] + RunCode(c, n - 128)
    else if n > 0 then [(257 - n) % 256, c]
    else []
  }

  /** Blocks of a literal; an empty literal gives the length byte -1, which wraps to 255. */
  function LiteralCode(s: seq<Byte>): seq<Byte> {
    if |s| > 128 then [127] + s[..128] + LiteralCode(s[128..]) else [(|s| - 1) % 256] + s
  }

  lemma {:induction false} RunCodeDecodes(c: Byte, n: nat)
    ensures Blocks(RunCode(c, n)) == Bytes(Repeat(c, n))
    ensures n >= 2 ==> 3 * |RunCode(c, n)| <= 4 * n - 2
    ensures |RunCode(c, n)| <= n + 1
  {
    if n > 128 {
      RunCodeDecodes(c, n - 128);
      var r := RunCode(c, n - 128);
      assert ([129, c] + r)[2..] == r;
      assert Repeat(c, 128) + Repeat(c, n - 128) == Repeat(c, n);
    } else if n == 1 {
      assert RunCode(c, 1) == [0, c];
      assert [0, c][2..] == [];
      assert [0, c][1..2] + [] == Repeat(c, 1);
    } else if n > 0 {
      var l: Byte := 257 - n;
      assert RunCode(c, n) == [l, c] && [l, c][2..] == [];
      assert Repeat(c, n) + [] == Repeat(c, n);
    }
  }

  lemma {:induction false} LiteralCodeDecodes(s: seq<Byte>)
    requires s != []
    ensures Blocks(LiteralCode(s)) == Bytes(s)
    ensures 3 * |LiteralCode(s)| <= 4 * |s| + 2
    ensures |s| > 1 ==> 3 * |LiteralCode(s)| <= 4 * |s| + 1
    ensures |LiteralCode(s)| <= 2 * |s|
  {
    if |s| > 128 {
      LiteralCodeDecodes(s[128..]);
      var r := LiteralCode(s[128..]);
      var code := [127] + s[..128] + r;
      assert code[129..] == r && code[1..129] == s[..128];
      assert s[..128] + s[128..] == s;
    } else {
      var l: Byte := |s| - 1;
      var code := [l] + s;
      assert LiteralCode(s) == code && code[1..l + 2] == s && code[l + 2..] == [];
      assert s + [] == s;
    }
  }

  // ----- the encoder -----

  predicate AllEqual(s: seq<Byte>) {
    forall i | 0 <= i < |s| :: s[i] == s[0]
  }

  /** When encoding the first n bytes of `mem` round-trips: it ends in two equal bytes and the byte
      behind it, which the encoder peeks at, differs from them or the whole input is one run. */
  predicate RoundTrips(mem: seq<Byte>, n: nat)
    requires n < |mem|
  {
    n == 0 || (n >= 2 && mem[n - 1] == mem[n - 2] && (mem[n] != mem[n - 1] || AllEqual(mem[..n])))
  }

  /** The run that starts at `start`: its length, capped at n, with the peek behind the input. */
  method CountRun(mem: seq<Byte>, n: nat, start: nat) returns (cnt: nat)
    requires start < n && n + 2 <= |mem|
    ensures 1 <= cnt <= n && start + cnt <= n + 1
    ensures forall i | start <= i < start + cnt :: mem[i] == mem[start]
    ensures start + cnt < n ==> mem[start + cnt] != mem[start]
    ensures start + cnt == n ==> mem[n] != mem[start] || start == 0
  {
    var c := mem[start];
    var ptr := start + 1;
    cnt := 1;
    while mem[ptr] == c && cnt < n
      invariant ptr == start + cnt && 1 <= cnt <= n && ptr <= n + 1
      invariant forall i | start <= i < ptr :: mem[i] == c
    {
      if ptr > n {
        break;
      }
      cnt := cnt + 1;
      ptr := ptr + 1;
    }
  }

  /** The end of the literal that starts at `start`: the first byte equal to its successor, or the end of
      the input; `k` is what the unconditional decrement leaves of its length. */
  method ScanLiteral(mem: seq<Byte>, n: nat, start: nat) returns (next: nat, k: nat)
    requires start < n && n + 2 <= |mem|
    requires start + 1 < n ==> mem[start] != mem[start + 1]
    ensures start <= next <= n
    ensures forall i | start < i < next :: mem[i - 1] != mem[i]
    ensures next < n ==>
              (k == next - start && k >= 1 && next + 1 < n && mem[next] == mem[next + 1] && mem[next - 1] != mem[next])
    ensures next == n ==> k == n - 1 - start
  {
    var p, ptr, cnt := start, start + 1, 1;
    while mem[p] != mem[ptr]
      invariant p + 1 == ptr <= n && cnt == ptr - start
      invariant forall i | start < i < ptr :: mem[i - 1] != mem[i]
      decreases n - ptr
    {
      if ptr >= n {
        break;
      }
      p, ptr, cnt := p + 1, ptr + 1, cnt + 1;
    }
    if ptr != n {
      ptr := ptr - 1;
    }
    cnt := cnt - 1;
    next, k := ptr, cnt;
  }

  method EmitRun(out: seq<Byte>, c: Byte, n: nat) returns (r: seq<Byte>)
    ensures r == out + RunCode(c, n)
  {
    r := out;
    var cnt := n;
    while cnt > 128
      invariant 0 <= cnt <= n
      invariant r + RunCode(c, cnt) == out + RunCode(c, n)
    {
      assert r + ([129, c] + RunCode(c, cnt - 128)) == (r + [129, c]) + RunCode(c, cnt - 128);
      r := r + [129, c];
      cnt := cnt - 128;
    }
    if cnt != 0 {
      r := r + [(257 - cnt) % 256, c];
    }
  }

  lemma LiteralPiece(r: seq<Byte>, rest: seq<Byte>)
    requires |rest| > 128
    ensures r + LiteralCode(rest) == (r + [127] + rest[..128]) + LiteralCode(rest[128..])
  {
    hide *;
    LongLiteral(rest);
    Regroup(r, [127], rest[..128], LiteralCode(rest[128..]));
  }

  lemma LongLiteral(rest: seq<Byte>)
    requires |rest| > 128
    ensures LiteralCode(rest) == [127] + rest[..128] + LiteralCode(rest[128..])
  {
  }

  lemma Regroup(a: seq<Byte>, b: seq<Byte>, c: seq<Byte>, d: seq<Byte>)
    ensures a + (b + c + d) == (a + b + c) + d
  {
  }

  method EmitLiteral(out: seq<Byte>, mem: seq<Byte>, start: nat, k: nat) returns (r: seq<Byte>)
    requires start + k <= |mem|
    ensures r == out + LiteralCode(mem[start..start + k])
  {
    r := out;
    var at, cnt := start, k;
    ghost var end := start + k;
    while cnt > 128
      invariant 0 <= cnt <= k && at + cnt == end
      invariant r + LiteralCode(mem[at..end]) == out + LiteralCode(mem[start..end])
    {
      LiteralPiece(r, mem[at..end]);
      assert mem[at..end][..128] == mem[at..at + 128] && mem[at..end][128..] == mem[at + 128..end];
      r := r + [127] + mem[at..at + 128];
      at, cnt := at + 128, cnt - 128;
    }
    r := r + [(cnt - 1) % 256] + mem[at..at + cnt];
    assert r == r[..|r| - cnt - 1] + ([(cnt - 1) % 256] + mem[at..at + cnt]);
  }

  /** How far the encoder got: everything up to `pos` encoded; or, once the input is used up, one byte
      too many, the last byte lost, or a dangling length byte in its place. */
  datatype Progress = Exact | Overrun | LastLost | Dangling

  ghost predicate Encoded(out: seq<Byte>, mem: seq<Byte>, n: nat, pos: nat, progress: Progress)
    requires n < |mem|
  {
    match progress
    case Exact => pos <= n && Blocks(out) == Bytes(mem[..pos]) && 3 * |out| <= 4 * pos + 2
    case Overrun => pos == n + 1 && n >= 3 && Blocks(out) == Bytes(mem[..n + 1]) && 3 * |out| <= 4 * n + 4
    case LastLost => pos == n && n >= 2 && Blocks(out) == Bytes(mem[..n - 1]) && 3 * |out| <= 4 * n
    case Dangling =>
      && pos == n && n >= 1 && out != [] && out[|out| - 1] == 255
      && Blocks(out[..|out| - 1]) == Bytes(mem[..n - 1]) && 3 * |out| <= 4 * n
  }

  /** The encoder stands at a run that has not begun before. */
  predicate AtBoundary(mem: seq<Byte>, n: nat, pos: nat)
    requires n < |mem|
  {
    0 < pos < n ==> mem[pos - 1] != mem[pos]
  }

  /** Room left for the expansion of a literal: it is always followed by a run of two or more. */
  predicate Slack(size: nat, mem: seq<Byte>, n: nat, pos: nat)
    requires n < |mem|
  {
    3 * size <= 4 * pos || (3 * size <= 4 * pos + 2 && pos + 1 < n && mem[pos] == mem[pos + 1])
  }

  /** What one turn of the outer loop establishes. */
  ghost predicate Segment(mem: seq<Byte>, n: nat, next: nat, r: seq<Byte>, progress: Progress)
    requires n < |mem|
  {
    && Encoded(r, mem, n, next, progress)
    && AtBoundary(mem, n, next)
    && (next < n ==> progress == Exact)
    && (progress == Exact ==> Slack(|r|, mem, n, next))
    && (next >= n ==> (progress == Exact <==> RoundTrips(mem, n)))
  }

  lemma BlocksAreLong(out: seq<Byte>)
    ensures Blocks(out).Bytes? && Blocks(out).data != [] ==> |out| >= 2
  {
  }

  lemma RunIsRepeat(mem: seq<Byte>, pos: nat, cnt: nat)
    requires pos + cnt <= |mem|
    requires forall i | pos <= i < pos + cnt :: mem[i] == mem[pos]
    ensures pos < |mem| ==> mem[..pos] + Repeat(mem[pos], cnt) == mem[..pos + cnt]
  {
  }

  lemma RunSegment(mem: seq<Byte>, n: nat, pos: nat, out: seq<Byte>, cnt: nat, progress: Progress)
    requires pos < n && n + 2 <= |mem| && AtBoundary(mem, n, pos)
    requires Encoded(out, mem, n, pos, Exact) && Slack(|out|, mem, n, pos)
    requires 2 <= cnt <= n && pos + cnt <= n + 1
    requires forall i | pos <= i < pos + cnt :: mem[i] == mem[pos]
    requires pos + cnt < n ==> mem[pos + cnt] != mem[pos]
    requires pos + cnt == n ==> mem[n] != mem[pos] || pos == 0
    requires progress == if pos + cnt <= n then Exact else Overrun
    ensures Segment(mem, n, pos + cnt, out + RunCode(mem[pos], cnt), progress)
  {
    hide RunCode, Blocks, Repeat;
    var next := pos + cnt;
    RunCodeDecodes(mem[pos], cnt);
    BlocksConcat(out, RunCode(mem[pos], cnt));
    RunIsRepeat(mem, pos, cnt);
    if next == n {
      assert mem[n - 1] == mem[n - 2] == mem[pos];
      assert pos == 0 ==> AllEqual(mem[..n]);
    } else if next == n + 1 {
      assert mem[n] == mem[n - 1] == mem[pos] && pos > 0;
      BlocksAreLong(out);
      var all := mem[..n];
      assert all[pos - 1] != all[pos];
    }
  }

  lemma ExactSegment(mem: seq<Byte>, n: nat, next: nat, r: seq<Byte>)
    requires next + 1 < n < |mem| && next >= 1 && mem[next - 1] != mem[next] == mem[next + 1]
    requires Blocks(r) == Bytes(mem[..next]) && 3 * |r| <= 4 * next + 2
    ensures Segment(mem, n, next, r, Exact)
  {
    hide Blocks;
  }

  /** A literal that ends before two equal bytes. */
  lemma InnerLiteral(mem: seq<Byte>, n: nat, pos: nat, out: seq<Byte>, next: nat)
    requires pos < next && next + 1 < n && n + 2 <= |mem|
    requires Blocks(out) == Bytes(mem[..pos]) && 3 * |out| <= 4 * pos
    requires mem[next] == mem[next + 1] && mem[next - 1] != mem[next]
    ensures Segment(mem, n, next, out + LiteralCode(mem[pos..next]), Exact)
  {
    hide *;
    LiteralAppended(mem, n, pos, out, next - pos);
    ExactSegment(mem, n, next, out + LiteralCode(mem[pos..next]));
  }

  lemma LostSegment(mem: seq<Byte>, n: nat, r: seq<Byte>)
    requires 2 <= n < |mem| && mem[n - 2] != mem[n - 1]
    requires Blocks(r) == Bytes(mem[..n - 1]) && 3 * |r| <= 4 * n
    ensures Segment(mem, n, n, r, LastLost)
  {
    hide Blocks;
  }

  lemma DanglingSegment(mem: seq<Byte>, n: nat, r: seq<Byte>)
    requires 1 <= n < |mem| && (n >= 2 ==> mem[n - 2] != mem[n - 1])
    requires r != [] && r[|r| - 1] == 255 && Blocks(r[..|r| - 1]) == Bytes(mem[..n - 1]) && 3 * |r| <= 4 * n
    ensures Segment(mem, n, n, r, Dangling)
  {
    hide Blocks;
  }

  /** The last literal loses its last byte, or is nothing but that byte. */
  lemma LastLiteral(mem: seq<Byte>, n: nat, pos: nat, out: seq<Byte>)
    requires pos < n && n + 2 <= |mem| && AtBoundary(mem, n, pos)
    requires Blocks(out) == Bytes(mem[..pos]) && 3 * |out| <= 4 * pos
    requires forall i | pos < i < n :: mem[i - 1] != mem[i]
    ensures Segment(mem, n, n, out + LiteralCode(mem[pos..n - 1]), if n - 1 > pos then LastLost else Dangling)
  {
    hide LiteralCode, Blocks, Segment;
    if n - 1 > pos {
      LiteralAppended(mem, n, pos, out, n - 1 - pos);
      LostSegment(mem, n, out + LiteralCode(mem[pos..n - 1]));
    } else {
      assert mem[pos..n - 1] == [];
      EmptyLiteralAppended(out);
      DanglingSegment(mem, n, out + LiteralCode([]));
    }
  }

  lemma LiteralSegment(mem: seq<Byte>, n: nat, pos: nat, out: seq<Byte>, next: nat, k: nat, progress: Progress)
    requires pos < n && n + 2 <= |mem| && AtBoundary(mem, n, pos)
    requires Encoded(out, mem, n, pos, Exact) && 3 * |out| <= 4 * pos
    requires pos <= next <= n
    requires forall i | pos < i < next :: mem[i - 1] != mem[i]
    requires next < n ==>
               (k == next - pos && k >= 1 && next + 1 < n && mem[next] == mem[next + 1] && mem[next - 1] != mem[next])
    requires next == n ==> k == n - 1 - pos
    requires progress == if next < n then Exact else if k > 0 then LastLost else Dangling
    ensures Segment(mem, n, next, out + LiteralCode(mem[pos..pos + k]), progress)
  {
    hide LiteralCode, Blocks, Segment;
    if next < n {
      InnerLiteral(mem, n, pos, out, next);
    } else {
      LastLiteral(mem, n, pos, out);
    }
  }

  lemma EmptyLiteralAppended(out: seq<Byte>)
    ensures var r := out + LiteralCode([]); |r| == |out| + 1 && r[|r| - 1] == 255 && r[..|r| - 1] == out
  {
    assert LiteralCode([]) == [255];
  }

  lemma LiteralAppended(mem: seq<Byte>, n: nat, pos: nat, out: seq<Byte>, k: nat)
    requires pos < n < |mem| && k >= 1 && pos + k <= n
    requires Blocks(out) == Bytes(mem[..pos])
    ensures Blocks(out + LiteralCode(mem[pos..pos + k])) == Bytes(mem[..pos + k])
    ensures 3 * |LiteralCode(mem[pos..pos + k])| <= 4 * k + 2
    ensures |LiteralCode(mem[pos..pos + k])| <= 2 * k && (k >= 2 ==> 3 * |LiteralCode(mem[pos..pos + k])| <= 4 * k + 1)
  {
    hide LiteralCode, Blocks;
    LiteralCodeDecodes(mem[pos..pos + k]);
    BlocksConcat(out, LiteralCode(mem[pos..pos + k]));
    assert mem[..pos] + mem[pos..pos + k] == mem[..pos + k];
  }

  /** One turn of the outer loop. */
  method EncodeSegment(mem: seq<Byte>, n: nat, pos: nat, out: seq<Byte>)
    returns (next: nat, r: seq<Byte>, ghost progress: Progress)
    requires pos < n && n + 2 <= |mem| && AtBoundary(mem, n, pos)
    requires Encoded(out, mem, n, pos, Exact) && Slack(|out|, mem, n, pos)
    ensures pos < next <= n + 1
    ensures Segment(mem, n, next, r, progress)
  {
    hide Encoded, Segment, RunCode, LiteralCode, RoundTrips;
    var cnt := CountRun(mem, n, pos);
    if cnt > 1 {
      next := pos + cnt;
      r := EmitRun(out, mem[pos], cnt);
      progress := if next <= n then Exact else Overrun;
      RunSegment(mem, n, pos, out, cnt, progress);
    } else {
      var k;
      next, k := ScanLiteral(mem, n, pos);
      r := EmitLiteral(out, mem, pos, k);
      progress := if next < n then Exact else if k > 0 then LastLost else Dangling;
      LiteralSegment(mem, n, pos, out, next, k, progress);
    }
  }

  /** `RLEEncodeImage`.  `mem` holds the n input bytes and the two bytes behind them that the encoder may
      look at.  Decoding returns the input exactly when `RoundTrips` holds, and the output fits the
      scratch buffer of twice the input. */
  method RLEEncodeImage(mem: seq<Byte>, n: nat) returns (out: seq<Byte>)
    requires n + 2 <= |mem|
    ensures Decode(out) == Bytes(mem[..n]) <==> RoundTrips(mem, n)
    ensures RoundTrips(mem, n) ==> |out| <= n + n / 3 + 1
    ensures |out| <= n + (n + 4) / 3 + 1
    ensures n >= 2 ==> |out| <= 2 * n
  {
    out := [];
    var pos := 0;
    ghost var progress := Exact;
    assert mem[..0] == [];
    while pos < n
      invariant 0 <= pos <= n + 1
      invariant Segment(mem, n, pos, out, progress)
      decreases n + 1 - pos
    {
      pos, out, progress := EncodeSegment(mem, n, pos, out);
    }
    ghost var body := out;
    out := out + [128];
    MarkedEnd(body, mem, n, pos, progress);
  }

  /** What the decoder makes of each ending. */
  lemma MarkedEnd(body: seq<Byte>, mem: seq<Byte>, n: nat, pos: nat, progress: Progress)
    requires n + 2 <= |mem| && pos >= n
    requires Encoded(body, mem, n, pos, progress)
    ensures Decode(body + [128]) == Bytes(mem[..n]) <==> progress == Exact
  {
    if progress == Dangling {
      var front := body[..|body| - 1];
      DanglingTail(front);
      assert front + [255, 128] == body + [128];
    } else {
      JustEnd(body);
      hide Blocks, Decode;
      assert progress != Exact ==> |Blocks(body).data| != n;
    }
  }

  lemma JustEnd(body: seq<Byte>)
    requires Blocks(body).Bytes?
    ensures Decode(body + [128]) == Blocks(body)
  {
    hide Blocks;
    DecodeAfterBlocks(body, [128]);
    var d := Blocks(body).data;
    assert d + [] == d;
  }

  lemma DanglingTail(front: seq<Byte>)
    requires Blocks(front).Bytes?
    ensures Decode(front + [255, 128]) == Malformed
  {
    DecodeAfterBlocks(front, [255, 128]);
    hide Blocks;
    assert [255, 128][2..] == [];
    assert Decode([]) == Malformed;
    assert Decode([255, 128]) == Malformed;
  }

  /** Inputs on which the round trip fails, with the encoder's output for them: a lone last byte behind a
      run leaves a dangling length byte, and one behind other literals is dropped. */
  lemma LiteralTailFails()
    ensures !RoundTrips([1, 1, 2, 0, 0], 3) && Decode(RunCode(1, 2) + LiteralCode([]) + [128]) == Malformed
    ensures !RoundTrips([1, 2, 0, 0], 2) && Decode(LiteralCode([1]) + [128]) == Bytes([1])
  {
    var a, b: seq<Byte> := RunCode(1, 2) + LiteralCode([]) + [128], LiteralCode([1]) + [128];
    assert a == [255, 1, 255, 128] && a[2..] == [255, 128] && a[2..][2..] == [];
    assert Decode([255, 128]) == Prepend(Repeat(128, 2), Decode(a[2..][2..])) == Malformed;
    assert Decode(a) == Prepend(Repeat(1, 2), Decode(a[2..]));
    assert b == [0, 1, 128] && b[2..] == [128] && b[1..2] == [1];
    assert [1] + [] == [1];
    assert [1, 1, 2, 0, 0][2] == 2 && [1, 2, 0, 0][1] == 2;
  }
}
