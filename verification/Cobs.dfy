/** Consistent Overhead Byte Stuffing (src/arpc/packet_codecs.cpp), after Cheshire and Baker,
    IEEE/ACM Transactions on Networking 7(2), 1999.

    `Encoded` and `Decoded` are the block-by-block definitions; `Encode` and `Decode` are the
    in-place algorithms of the source, working inside one buffer. */
module Cobs {
  import opened Results
  import opened Streams

  const FULL: nat := 254

  function NonZeroPrefix(s: seq<byte>): (p: nat)
    ensures p <= |s|
    ensures forall i :: 0 <= i < p ==> s[i] != 0
    ensures p < |s| ==> s[p] == 0
  {
    if s == [] || s[0] == 0 then 0 else 1 + NonZeroPrefix(s[1..])
  }

  /** Length of the leading run of nonzero bytes, cut at 254. */
  function Run(s: seq<byte>): (r: nat)
    ensures r <= FULL && r <= |s|
    ensures forall i :: 0 <= i < r ==> s[i] != 0
    ensures r < FULL && r < |s| ==> s[r] == 0
  {
    var p := NonZeroPrefix(s);
    if p < FULL then p else FULL
  }

  /** How far one block advances in the data: a short run also takes the zero after it, or
      the virtual zero at the end. */
  function Skip(s: seq<byte>): (k: nat)
    ensures 0 < k <= |s| + 1
  {
    if Run(s) == FULL then FULL else Run(s) + 1
  }

  /** The encoding: a code byte 1 + run, the run, and so on until the virtual zero. */
  function Encoded(s: seq<byte>): seq<byte>
    decreases |s|
  {
    [1 + Run(s)] + s[..Run(s)] + if Skip(s) <= |s| then Encoded(s[Skip(s)..]) else []
  }

  /** Number of 254-byte runs in the block decomposition. */
  function FullRuns(s: seq<byte>): nat
    decreases |s|
  {
    (if Run(s) == FULL then 1 else 0) + if Skip(s) <= |s| then FullRuns(s[Skip(s)..]) else 0
  }

  /** The lengths of the runs, in order. */
  function RunLengths(s: seq<byte>): seq<nat>
    decreases |s|
  {
    [Run(s)] + if Skip(s) <= |s| then RunLengths(s[Skip(s)..]) else []
  }

  /** The blocks of `e` expanded, each short block followed by a zero; None when a block is
      cut short.  A zero code byte underflows to a count of 2^64 - 1, longer than any string. */
  function Expanded(e: seq<byte>): Option<seq<byte>>
    decreases |e|
  {
    if e == [] then Some([])
    else if e[0] == 0 || |e| < e[0] then None
    else
      match Expanded(e[e[0]..])
      case None => None
      case Some(rest) => Some(Block(e) + rest)
  }

  function Block(e: seq<byte>): seq<byte>
    requires e != [] && 0 < e[0] <= |e|
  {
    e[1..e[0]] + if e[0] < 255 then [0] else []
  }

  /** cobs_codec::decode: the expansion without its last byte.  On the empty string the
      final resize asks for 2^64 - 1 bytes and throws. */
  function Decoded(e: seq<byte>): Result<seq<byte>> {
    match Expanded(e)
    case None => Err(DataMismatch)
    case Some(d) => if d == [] then Err(LengthError) else Ok(d[..|d| - 1])
  }

  /** The strings that encoding produces: non-empty, free of zeros, a whole number of
      blocks, the last of them short. */
  predicate WellFormed(e: seq<byte>)
    decreases |e|
  {
    e != [] && 0 < e[0] <= |e|
    && (forall i :: 0 <= i < e[0] ==> e[i] != 0)
    && if |e| == e[0] then e[0] < 255 else WellFormed(e[e[0]..])
  }

  // ----- Encode then decode -----

  /** One block in front of `tail`, expanded. */
  lemma ExpandBlock(c: byte, body: seq<byte>, tail: seq<byte>)
    requires c > 0 && |body| == c - 1
    ensures var e := [c] + body + tail;
      e[c..] == tail && Block(e) == body + (if c < 255 then [0] else [])
      && Expanded(e) == (match Expanded(tail) case None => None case Some(d) => Some(Block(e) + d))
  {
    var e := [c] + body + tail;
    assert e[c..] == tail;
    assert e[1..c] == body;
  }

  lemma ExpandNothing()
    ensures Expanded([]) == Some([])
  {
  }

  lemma WellFormedBlock(c: byte, body: seq<byte>, tail: seq<byte>)
    requires c > 0 && |body| == c - 1
    requires forall i :: 0 <= i < |body| ==> body[i] != 0
    requires if tail == [] then c < 255 else WellFormed(tail)
    ensures WellFormed([c] + body + tail)
  {
    ExpandBlock(c, body, tail);
  }

  lemma {:induction false} EncodedExpands(s: seq<byte>)
    ensures Expanded(Encoded(s)) == Some(s + [0])
    ensures WellFormed(Encoded(s))
    decreases |s|
  {
    hide Expanded, WellFormed, Block, NonZeroPrefix;
    var r, k := Run(s), Skip(s);
    var tail := if k <= |s| then Encoded(s[k..]) else [];
    ExpandBlock(1 + r, s[..r], tail);
    if k <= |s| {
      EncodedExpands(s[k..]);
      ConcatBack(s, k);
    } else {
      ExpandNothing();
      assert s[..r] + [0] + [] == s + [0];
    }
    WellFormedBlock(1 + r, s[..r], tail);
  }

  lemma ConcatBack(s: seq<byte>, k: nat)
    requires k == Skip(s) <= |s|
    ensures s[..Run(s)] + (if Run(s) < FULL then [0] else []) + (s[k..] + [0]) == s + [0]
  {
  }

  /** Decoding undoes encoding, for every byte string. */
  lemma DecodeEncode(s: seq<byte>)
    ensures Decoded(Encoded(s)) == Ok(s)
  {
    EncodedExpands(s);
    assert (s + [0])[..|s|] == s;
  }

  lemma {:induction false} WellFormedHasNoZero(e: seq<byte>)
    requires WellFormed(e)
    ensures forall i :: 0 <= i < |e| ==> e[i] != 0
    decreases |e|
  {
    if |e| != e[0] {
      WellFormedHasNoZero(e[e[0]..]);
      forall i | 0 <= i < |e| ensures e[i] != 0 {
        if i >= e[0] {
          assert e[i] == e[e[0]..][i - e[0]];
        }
      }
    }
  }

  /** The output never contains the zero that frames packets. */
  lemma EncodedHasNoZero(s: seq<byte>)
    ensures Encoded(s) != [] && forall i :: 0 <= i < |Encoded(s)| ==> Encoded(s)[i] != 0
  {
    EncodedExpands(s);
    WellFormedHasNoZero(Encoded(s));
  }

  // ----- Decode then encode -----

  lemma RunExact(s: seq<byte>, r: nat)
    requires r <= FULL && r <= |s|
    requires forall i :: 0 <= i < r ==> s[i] != 0
    requires r < FULL ==> r == |s| || s[r] == 0
    ensures Run(s) == r
  {
  }

  /** The data that encodes to one block in front of the encoding of `rest`. */
  lemma EncodeBlock(c: byte, body: seq<byte>, rest: seq<byte>)
    requires c > 0 && |body| == c - 1
    requires forall i :: 0 <= i < |body| ==> body[i] != 0
    ensures Encoded(body + (if c < 255 then [0] else []) + rest) == [c] + body + Encoded(rest)
  {
    var s := body + (if c < 255 then [0] else []) + rest;
    RunExact(s, c - 1);
    assert s[..c - 1] == body;
    assert s[Skip(s)..] == rest;
  }

  lemma EncodeLastBlock(c: byte, body: seq<byte>)
    requires 0 < c < 255 && |body| == c - 1
    requires forall i :: 0 <= i < |body| ==> body[i] != 0
    ensures Encoded(body) == [c] + body
  {
    hide NonZeroPrefix, Run;
    RunExact(body, c - 1);
    assert body[..c - 1] == body;
  }

  lemma {:induction false} WellFormedExpands(e: seq<byte>)
    requires WellFormed(e)
    ensures Expanded(e).Some?
    ensures var d := Expanded(e).value; d != [] && d[|d| - 1] == 0 && Encoded(d[..|d| - 1]) == e
    decreases |e|
  {
    hide Encoded, Expanded, Block;
    var c := e[0];
    var body, tail := e[1..c], e[c..];
    assert e == [c] + body + tail;
    ExpandBlock(c, body, tail);
    if tail == [] {
      assert Expanded([]) == Some([]) by { ExpandNothing(); }
      var d := Block(e) + [];
      assert d[..|d| - 1] == body;
      EncodeLastBlock(c, body);
    } else {
      WellFormedExpands(tail);
      var rest := Expanded(tail).value;
      EncodeBlock(c, body, rest[..|rest| - 1]);
      var d := Block(e) + rest;
      assert d[..|d| - 1] == Block(e) + rest[..|rest| - 1];
    }
  }

  /** COBS is a bijection between byte strings and well-formed strings: encoding a decoded
      string gives the string back exactly when it is well formed. */
  lemma EncodeDecodeExactlyWellFormed(e: seq<byte>)
    ensures (Decoded(e).Ok? && Encoded(Decoded(e).value) == e) <==> WellFormed(e)
  {
    hide WellFormed, Encoded, Expanded;
    if WellFormed(e) {
      WellFormedExpands(e);
    } else if Decoded(e).Ok? {
      EncodedExpands(Decoded(e).value);
    }
  }

  /** The decoder accepts more: an embedded zero is copied, and the last byte of a trailing
      full block is dropped. */
  lemma DecoderAcceptsMore(block: seq<byte>)
    requires |block| == FULL
    ensures Decoded([2, 0]) == Ok([0]) && !WellFormed([2, 0])
    ensures Decoded([255] + block) == Ok(block[..253]) && !WellFormed([255] + block)
  {
    ExpandBlock(2, [0], []);
    assert [2] + [0] + [] == [2, 0];
    assert Block([2, 0]) + [] == [0, 0];
    assert [0, 0][..1] == [0];
    assert [2, 0][1] == 0;
    var e := [255] + block;
    ExpandBlock(255, block, []);
    assert [255] + block + [] == e;
    assert Block(e) + [] == block;
  }

  /** What the encoding of `s` expands to in front of anything. */
  lemma {:induction false} ExpandedInFront(s: seq<byte>, more: seq<byte>)
    ensures Expanded(Encoded(s) + more) == match Expanded(more) case None => None case Some(d) => Some(s + [0] + d)
    decreases |s|
  {
    hide Expanded, Block, NonZeroPrefix, Run;
    var r, k := Run(s), Skip(s);
    var tail := if k <= |s| then Encoded(s[k..]) else [];
    assert Encoded(s) + more == [1 + r] + s[..r] + (tail + more);
    ExpandBlock(1 + r, s[..r], tail + more);
    if k <= |s| {
      ExpandedInFront(s[k..], more);
      ConcatBack(s, k);
      if Expanded(more).Some? {
        var d := Expanded(more).value;
        assert s[..r] + (if r < FULL then [0] else []) + (s[k..] + [0] + d) == s + [0] + d;
      }
    } else {
      assert [] + more == more;
      if Expanded(more).Some? {
        assert s[..r] + [0] + Expanded(more).value == s + [0] + Expanded(more).value;
      }
    }
  }

  /** Two encodings one after the other decode to the two strings with a zero between them. */
  lemma DecodeTwo(s: seq<byte>, t: seq<byte>)
    ensures Decoded(Encoded(s) + Encoded(t)) == Ok(s + [0] + t)
  {
    hide Expanded, Encoded;
    ExpandedInFront(s, Encoded(t));
    EncodedExpands(t);
    var d := s + [0] + (t + [0]);
    assert d[..|d| - 1] == s + [0] + t;
  }

  /** What is refused, and how: nothing at all for its length, and a block that is cut short, or
      that begins with a zero, as a mismatch, whatever blocks were read before it. */
  lemma DecodeRefuses(s: seq<byte>, cut: seq<byte>)
    requires cut != [] && (cut[0] == 0 || |cut| < cut[0])
    ensures Decoded([]) == Err(LengthError)
    ensures Decoded(cut) == Err(DataMismatch) && Decoded(Encoded(s) + cut) == Err(DataMismatch)
  {
    ExpandedInFront(s, cut);
  }

  /** Some encodings in full. */
  lemma Examples(run: seq<byte>)
    requires |run| == FULL && forall i :: 0 <= i < FULL ==> run[i] != 0
    ensures Encoded([]) == [1] && Encoded([0]) == [1, 1] && Encoded([17, 0, 34]) == [2, 17, 2, 34]
    ensures Encoded(run) == [255] + run + [1]
  {
    EncodeLastBlock(1, []);
    EncodeBlock(1, [], []);
    EncodeLastBlock(2, [34]);
    EncodeBlock(2, [17], [34]);
    EncodeBlock(255, run, []);
    assert [] + [0] + [] == [0] && [17] + [0] + [34] == [17, 0, 34] && run + [] + [] == run;
    assert [1] + [] + [1] == [1, 1] && [2] + [17] + [2, 34] == [2, 17, 2, 34];
  }

  // ----- Length -----

  lemma {:induction false} EncodedLength(s: seq<byte>)
    ensures |Encoded(s)| == |s| + 1 + FullRuns(s)
    ensures FULL * FullRuns(s) <= |s|
    ensures |Encoded(s)| <= |s| + 1 + |s| / 254
    decreases |s|
  {
    if Skip(s) <= |s| {
      EncodedLength(s[Skip(s)..]);
    }
  }

  // ----- The in-place algorithms -----

  /** Offsets at which the runs of `s` begin; `counts[0]` is the virtual run of 254 that the
      source pushes first, `counts[j]` the length of run j. */
  ghost predicate RunsSoFar(s: seq<byte>, counts: seq<nat>, starts: seq<nat>)
  {
    |counts| == |starts| + 1 && counts[0] == FULL && forall j: nat :: RunAt(s, counts, starts, j)
  }

  ghost predicate RunAt(s: seq<byte>, counts: seq<nat>, starts: seq<nat>, j: nat)
    requires |counts| == |starts| + 1
  {
    j < |starts| ==>
      && starts[j] == (if j == 0 then 0 else NextStart(starts[j - 1], counts[j])) <= |s|
      && counts[j + 1] == Run(s[starts[j]..])
  }

  ghost function NextStart(start: nat, count: nat): nat {
    start + count + if count < FULL then 1 else 0
  }

  /** One extra byte for the first run and for every run that follows a full one. */
  ghost function Extra(counts: seq<nat>): nat {
    if counts == [] then 0
    else Extra(counts[..|counts| - 1]) + if counts[|counts| - 1] == FULL then 1 else 0
  }

  lemma ExtraPush(counts: seq<nat>, c: nat)
    ensures Extra(counts + [c]) == Extra(counts) + if c == FULL then 1 else 0
  {
    assert (counts + [c])[..|counts|] == counts;
  }

  lemma {:induction false} ExtraMonotone(counts: seq<nat>, j: nat)
    requires j <= |counts|
    ensures Extra(counts[..j]) <= Extra(counts)
    decreases |counts| - j
  {
    if j == |counts| {
      assert counts[..j] == counts;
    } else {
      assert counts[..j + 1][..j] == counts[..j];
      ExtraMonotone(counts, j + 1);
    }
  }

  lemma FullRunsFrom(s: seq<byte>, p: nat)
    requires p <= |s|
    ensures var next := p + Skip(s[p..]);
      FullRuns(s[p..]) == (if Run(s[p..]) == FULL then 1 else 0)
                          + if next <= |s| then FullRuns(s[next..]) else 0
  {
    if p + Skip(s[p..]) <= |s| {
      assert s[p..][Skip(s[p..])..] == s[p + Skip(s[p..])..];
    }
  }

  lemma EncodedFrom(s: seq<byte>, p: nat)
    requires p <= |s|
    ensures var r, next := Run(s[p..]), p + Skip(s[p..]);
      Encoded(s[p..]) == [1 + r] + s[p..p + r] + if next <= |s| then Encoded(s[next..]) else []
  {
    assert s[p..][..Run(s[p..])] == s[p..p + Run(s[p..])];
    if p + Skip(s[p..]) <= |s| {
      assert s[p..][Skip(s[p..])..] == s[p + Skip(s[p..])..];
    }
  }

  /** Where the next run begins; |s| + 1 when the runs cover `s`. */
  ghost function Position(counts: seq<nat>, starts: seq<nat>): nat
    requires |counts| == |starts| + 1
  {
    if starts == [] then 0 else NextStart(starts[|starts| - 1], counts[|starts|])
  }

  ghost function FullRunsLeft(s: seq<byte>, p: nat): nat {
    if p <= |s| then FullRuns(s[p..]) else 0
  }

  ghost function RunsLeft(s: seq<byte>, p: nat): seq<nat> {
    if p <= |s| then RunLengths(s[p..]) else []
  }

  lemma RunsLeftStep(s: seq<byte>, p: nat)
    requires p <= |s|
    ensures RunsLeft(s, p) == [Run(s[p..])] + RunsLeft(s, p + Skip(s[p..]))
  {
    hide Run, Skip;
    if p + Skip(s[p..]) <= |s| {
      assert s[p..][Skip(s[p..])..] == s[p + Skip(s[p..])..];
    }
  }

  lemma ScanStep(s: seq<byte>, counts: seq<nat>, starts: seq<nat>, r: nat)
    requires RunsSoFar(s, counts, starts)
    requires Position(counts, starts) <= |s| && r == Run(s[Position(counts, starts)..])
    ensures var p, counts', starts' := Position(counts, starts), counts + [r], starts + [Position(counts, starts)];
      && RunsSoFar(s, counts', starts')
      && Position(counts', starts') == p + Skip(s[p..]) <= |s| + 1
      && FullRunsLeft(s, p) == (if r == FULL then 1 else 0) + FullRunsLeft(s, p + Skip(s[p..]))
      && Extra(counts'[..|counts|]) == Extra(counts[..|starts|]) + (if counts[|starts|] == FULL then 1 else 0)
  {
    FullRunsFrom(s, Position(counts, starts));
    ExtraPush(counts[..|starts|], counts[|starts|]);
    assert counts[..|starts|] + [counts[|starts|]] == counts == (counts + [r])[..|counts|];
    var counts', starts' := counts + [r], starts + [Position(counts, starts)];
    forall j: nat ensures RunAt(s, counts', starts', j) {
      assert RunAt(s, counts, starts, j);
    }
  }

  /** Length of the run at `start`; the data ends at the zero in a[size]. */
  method FindRun(a: array<byte>, size: nat, start: nat) returns (runLength: nat)
    requires start <= size < a.Length && a[size] == 0
    ensures runLength == Run(a[start..size])
  {
    var current := start;
    runLength := 0;
    while a[current] != 0 && runLength < FULL
      invariant current == start + runLength <= size && runLength <= FULL
      invariant forall i :: start <= i < current ==> a[i] != 0
      decreases size - current
    {
      current := current + 1;
      runLength := runLength + 1;
    }
    RunExact(a[start..size], runLength);
  }

  /** First pass: scan forwards, recording the length of every run.  `a` holds the data and
      at least one byte more, which becomes the terminating zero. */
  method Scan(a: array<byte>, size: nat) returns (counts: seq<nat>, extra: nat, ghost starts: seq<nat>)
    requires size < a.Length && a[size] == 0
    ensures counts == [FULL] + RunLengths(a[..size])
    ensures extra == 1 + FullRuns(a[..size])
    ensures RunsSoFar(a[..size], counts, starts)
    ensures |starts| > 0 && Position(counts, starts) == size + 1
    ensures counts[|starts|] < FULL
    ensures extra == Extra(counts[..|starts|])
  {
    hide Encoded, NonZeroPrefix, Run, FullRuns, RunLengths;
    ghost var s := a[..size];
    extra := 0;
    counts, starts := [FULL], [];
    var current := 0;
    var end := size + 1;
    assert s[0..] == s;
    while current < end
      invariant RunsSoFar(s, counts, starts)
      invariant current == Position(counts, starts) <= end
      invariant extra == Extra(counts[..|starts|])
      invariant [FULL] + RunLengths(s) == counts + RunsLeft(s, current)
      invariant extra + (if counts[|starts|] == FULL then 1 else 0) + FullRunsLeft(s, current) == 1 + FullRuns(s)
      invariant current == end ==> starts != [] && counts[|starts|] < FULL
      decreases end - current
    {
      var runLength := FindRun(a, size, current);
      assert s[current..] == a[current..size];
      ScanStep(s, counts, starts, runLength);
      RunsLeftStep(s, current);
      assert counts + ([runLength] + RunsLeft(s, current + Skip(s[current..]))) ==
             counts + [runLength] + RunsLeft(s, current + Skip(s[current..]));
      if counts[|counts| - 1] == FULL {
        extra := extra + 1;
      }
      counts, starts := counts + [runLength], starts + [current];
      current := current + runLength;
      if runLength < FULL {
        current := current + 1;
      }
    }
  }

  /** Copies `count` bytes ending at `source` to end at `current`, backwards, inside `a`.
      The write position stays ahead of the read position, so nothing unread is lost. */
  method CopyBack(a: array<byte>, source: nat, current: nat, count: nat)
    requires count <= source < current <= a.Length
    modifies a
    ensures a[..current - count] == old(a[..current - count])
    ensures a[current - count..current] == old(a[source - count..source])
    ensures a[current..] == old(a[current..])
  {
    for k := 0 to count
      invariant a[..current - k] == old(a[..current - k])
      invariant a[current - k..current] == old(a[source - k..source])
      invariant a[current..] == old(a[current..])
    {
      assert a[source - k - 1] == a[..current - k][source - k - 1] == old(a[source - k - 1]);
      a[current - k - 1] := a[source - k - 1];
    }
  }

  lemma RunBounds(s: seq<byte>, counts: seq<nat>, starts: seq<nat>, j: nat)
    requires RunsSoFar(s, counts, starts) && j < |starts|
    ensures |counts| == |starts| + 1 && starts[j] + counts[j + 1] <= |s| && counts[j + 1] <= FULL
    ensures counts[j + 1] == Run(s[starts[j]..]) && counts[0] == FULL
    ensures starts[j] == if j == 0 then 0 else NextStart(starts[j - 1], counts[j])
  {
    assert RunAt(s, counts, starts, j);
  }

  /** The encoding of the data from run `j` on, one block in front of that from run j + 1. */
  lemma ExpandStep(s: seq<byte>, counts: seq<nat>, starts: seq<nat>, j: nat)
    requires RunsSoFar(s, counts, starts) && Position(counts, starts) == |s| + 1
    requires j < |starts| && starts[j] + counts[j + 1] <= |s|
    ensures TailFrom(s, starts, j) == [1 + counts[j + 1]] + s[starts[j]..starts[j] + counts[j + 1]]
                                      + TailFrom(s, starts, j + 1)
  {
    hide Encoded, NonZeroPrefix, Run, RunsSoFar;
    RunBounds(s, counts, starts, j);
    EncodedFrom(s, starts[j]);
    if j + 1 < |starts| {
      RunBounds(s, counts, starts, j + 1);
    }
  }

  ghost function TailFrom(s: seq<byte>, starts: seq<nat>, j: nat): seq<byte> {
    if j < |starts| && starts[j] <= |s| then Encoded(s[starts[j]..]) else []
  }

  /** Moves one run into place and writes its code byte in front of it. */
  method MoveRun(a: array<byte>, source: nat, current: nat, counter: nat)
    requires counter <= source < current <= a.Length && counter <= FULL
    modifies a
    ensures a[..source - counter] == old(a[..source - counter])
    ensures a[current - counter - 1..]
         == [1 + counter] + old(a[source - counter..source]) + old(a[current..])
  {
    ghost var moved, later := a[source - counter..source], a[current..];
    CopyBack(a, source, current, counter);
    assert a[current - counter..] == a[current - counter..current] + a[current..];
    assert forall i :: 0 <= i < source - counter ==> a[i] == a[..current - counter][i];
    assert a[current - counter..] == moved + later;
    a[current - counter - 1] := 1 + counter;
    assert a[current - counter..] == moved + later;
    assert a[current - counter - 1..] == [1 + counter] + a[current - counter..];
  }

  /** One turn of the second pass: run `j`, which ends at `source`, goes to `current`. */
  method ExpandRun(a: array<byte>, source: nat, current: nat, counter: nat,
                   ghost s: seq<byte>, ghost counts: seq<nat>, ghost starts: seq<nat>, ghost j: nat,
                   ghost end: seq<byte>)
    requires RunsSoFar(s, counts, starts) && Position(counts, starts) == |s| + 1
    requires j < |starts| && counter == counts[j + 1] && source == starts[j] + counter
    requires source < current <= a.Length && source <= |s|
    requires a[..source] == s[..source] && a[current..] == TailFrom(s, starts, j + 1) + end
    modifies a
    ensures a[..starts[j]] == s[..starts[j]]
    ensures a[current - counter - 1..] == TailFrom(s, starts, j) + end
  {
    hide Encoded, NonZeroPrefix, Run, RunsSoFar, TailFrom, Position;
    RunBounds(s, counts, starts, j);
    assert a[source - counter..source] == a[..source][source - counter..] == s[source - counter..source];
    assert a[..source - counter] == a[..source][..source - counter] == s[..source - counter];
    MoveRun(a, source, current, counter);
    ExpandStep(s, counts, starts, j);
  }

  /** How both cursors move over run `j`: the gap between them shrinks exactly when the run
      before is a full one (or the virtual first). */
  lemma CursorStep(s: seq<byte>, counts: seq<nat>, starts: seq<nat>, j: nat, source: nat)
    requires RunsSoFar(s, counts, starts) && 0 < j <= |starts|
    requires source == starts[j - 1] + counts[j]
    ensures source <= |s| && Extra(counts[..j]) > 0
    ensures var source' := source - counts[j] - (if counts[j - 1] < FULL then 1 else 0);
      && source' == (if j > 1 then starts[j - 2] + counts[j - 1] else 0)
      && source + Extra(counts[..j]) - counts[j] - 1 == source' + Extra(counts[..j - 1])
  {
    hide RunsSoFar, Extra;
    RunBounds(s, counts, starts, j - 1);
    ExtraStep(counts, j);
    if j > 1 {
      RunBounds(s, counts, starts, j - 2);
    }
  }

  /** Second pass: expand the runs from the last to the first. */
  method ExpandBackwards(a: array<byte>, size: nat, counts: seq<nat>, extra: nat,
                         ghost starts: seq<nat>)
    requires size + extra <= a.Length
    requires RunsSoFar(a[..size], counts, starts)
    requires |starts| > 0 && Position(counts, starts) == size + 1
    requires counts[|starts|] < FULL
    requires extra == Extra(counts[..|starts|])
    modifies a
    ensures a[..size + extra] == Encoded(old(a[..size]))
  {
    hide Encoded, NonZeroPrefix, Run, RunsSoFar, Extra, TailFrom, RunAt;
    ghost var s, end := a[..size], a[size + extra..];
    var source, current := size, size + extra;
    var j := |counts| - 1;
    RunBounds(s, counts, starts, |starts| - 1);
    assert counts[..j] == counts[..|starts|];
    TailFromEnds(s, starts);
    assert TailFrom(s, starts, |starts|) + end == end;
    while j > 0
      invariant 0 <= j < |counts| && source <= size
      // the write cursor leads by one plus the number of full runs still to the left
      invariant current == source + Extra(counts[..j]) <= a.Length
      invariant if j > 0 then source == starts[j - 1] + counts[j] else source == 0
      invariant a[..source] == s[..source]
      invariant a[current..] == TailFrom(s, starts, j) + end
      decreases j
    {
      var counter := counts[j];
      CursorStep(s, counts, starts, j, source);
      ExpandRun(a, source, current, counter, s, counts, starts, j - 1, end);
      source, current := source - counter, current - counter - 1;
      j := j - 1;
      if counts[j] < FULL {
        source := source - 1;
        assert a[..source] == a[..source + 1][..source];
      }
    }
    RunBounds(s, counts, starts, 0);
    ExtraStep(counts, 1);
    assert a[0..] == a[..] && a[..size + extra] == a[..][..size + extra];
    FinishExpansion(a[..], end, Encoded(s));
  }

  lemma TailFromEnds(s: seq<byte>, starts: seq<nat>)
    ensures TailFrom(s, starts, |starts|) == []
    ensures starts != [] && starts[0] == 0 ==> TailFrom(s, starts, 0) == Encoded(s)
  {
    assert s[0..] == s;
  }

  lemma FinishExpansion(all: seq<byte>, end: seq<byte>, encoded: seq<byte>)
    requires all == encoded + end
    ensures all[..|all| - |end|] == encoded
  {
  }

  lemma {:induction false} ExtraStep(counts: seq<nat>, j: nat)
    requires 0 < j <= |counts| && counts[0] == FULL
    ensures Extra(counts[..j]) == Extra(counts[..j - 1]) + (if counts[j - 1] == FULL then 1 else 0)
    ensures Extra(counts[..j]) > 0 && Extra(counts[..0]) == 0
  {
    if j > 1 {
      ExtraStep(counts, j - 1);
    }
    assert counts[..j] == counts[..j - 1] + [counts[j - 1]];
    ExtraPush(counts[..j - 1], counts[j - 1]);
  }

  /** cobs_codec::encode. */
  method Encode(data: ByteString)
    modifies data
    ensures data.Contents() == Encoded(old(data.Contents())) && fresh(data.chars)
  {
    hide Encoded, NonZeroPrefix, Run, FullRuns, Extra, RunsSoFar, Position;
    ghost var s := data.Contents();
    var size := data.chars.Length;
    var overhead := 1 + size / FULL;
    data.Resize(size + overhead);
    var a := data.chars;
    a[size] := 0;
    assert a[..size] == s;
    var counts, extra, starts := Scan(a, size);
    EncodedLength(s);
    ExpandBackwards(a, size, counts, extra, starts);
    ghost var encoded := a[..size + extra];
    data.Resize(size + extra);
    assert data.Contents() == encoded;
  }

  ghost function Prepend(done: seq<byte>, rest: Option<seq<byte>>): Option<seq<byte>> {
    match rest case None => None case Some(r) => Some(done + r)
  }

  /** Copies one block forwards inside `a`, stopping where the string ends. */
  method CopyForward(a: array<byte>, src: nat, dst: nat, count: nat) returns (ok: bool)
    requires dst <= src <= a.Length
    modifies a
    ensures ok <==> src + count <= a.Length
    ensures ok ==> a[..dst] == old(a[..dst])
    ensures ok ==> a[dst..dst + count] == old(a[src..src + count])
    ensures ok ==> a[src + count..] == old(a[src + count..])
  {
    for i := 0 to count
      invariant src + i <= a.Length
      invariant a[..dst] == old(a[..dst])
      invariant a[dst..dst + i] == old(a[src..src + i])
      invariant a[src + i..] == old(a[src + i..])
    {
      if src + i >= a.Length {
        return false;
      }
      assert a[src + i] == a[src + i..][0] == old(a[src + i..])[0] == old(a[src + i]);
      assert a[src + i..][1..] == a[src + i + 1..] && old(a[src + i..])[1..] == old(a[src + i + 1..]);
      ghost var unread := a[src + i + 1..];
      a[dst + i] := a[src + i];
      assert a[src + i + 1..] == unread;
    }
    return true;
  }

  /** One block of the unread part `rest` moves to the expanded part. */
  lemma DecodeStep(whole: Option<seq<byte>>, done: seq<byte>, rest: seq<byte>)
    requires rest != [] && whole == Prepend(done, Expanded(rest))
    ensures rest[0] == 0 || rest[0] > |rest| ==> whole == None
    ensures rest[0] != 0 && rest[0] <= |rest| ==>
      whole == Prepend(done + Block(rest), Expanded(rest[rest[0]..]))
  {
    hide Block;
    if rest[0] != 0 && rest[0] <= |rest| {
      var more := Expanded(rest[rest[0]..]);
      hide Expanded;
      assert more.Some? ==> done + (Block(rest) + more.value) == done + Block(rest) + more.value;
    }
  }

  /** Decodes the block at `src` to `dst`; fails when the string ends inside it. */
  method DecodeBlock(a: array<byte>, src0: nat, dst0: nat) returns (ok: bool, src: nat, dst: nat)
    requires dst0 <= src0 < a.Length < 0xFFFF_FFFF_FFFF_FFFF
    modifies a
    ensures ok <==> old(a[src0]) != 0 && src0 + old(a[src0]) <= a.Length
    ensures ok ==> src == src0 + old(a[src0]) && dst <= src <= a.Length
    ensures ok ==> a[src..] == old(a[src0..])[old(a[src0])..]
    ensures ok ==> a[..dst] == old(a[..dst0]) + Block(old(a[src0..]))
  {
    ghost var rest := a[src0..];
    src, dst := src0, dst0;
    // static_cast<std::uint8_t>(...) - 1 in 64-bit unsigned arithmetic
    var code := a[src];
    var count := if code == 0 then 0xFFFF_FFFF_FFFF_FFFF else code - 1;
    src := src + 1;
    assert src + count <= a.Length ==> a[src..src + count] == rest[1..code] && a[src + count..] == rest[code..];
    ok := CopyForward(a, src, dst, count);
    if ok {
      assert a[..dst + count] == a[..dst] + a[dst..dst + count];
      src, dst := src + count, dst + count;
      if count < FULL {
        ghost var unread := a[src..];
        a[dst] := 0;
        assert a[src..] == unread;
        dst := dst + 1;
      }
    }
  }

  /** cobs_codec::decode: the write cursor never passes the read cursor. */
  method Decode(data: ByteString) returns (r: Result<()>)
    requires data.chars.Length < 0xFFFF_FFFF_FFFF_FFFF
    modifies data, data.chars
    ensures r.Ok? ==> Decoded(old(data.Contents())) == Ok(data.Contents()) && fresh(data.chars)
    ensures r.Err? ==> Decoded(old(data.Contents())) == Err(r.error)
  {
    hide Expanded, Block;
    ghost var e := data.Contents();
    var a := data.chars;
    var src: nat, dst: nat := 0, 0;
    ghost var done: seq<byte> := [];
    assert a[0..] == e;
    assert Expanded(e).Some? ==> done + Expanded(e).value == Expanded(e).value;
    while src < a.Length
      invariant dst <= src <= a.Length && data.chars == a
      invariant a[..dst] == done
      invariant Expanded(e) == Prepend(done, Expanded(a[src..]))
      decreases a.Length - src
    {
      ghost var rest := a[src..];
      DecodeStep(Expanded(e), done, rest);
      var ok, src', dst' := DecodeBlock(a, src, dst);
      if !ok {
        return Err(DataMismatch);
      }
      src, dst := src', dst';
      done := done + Block(rest);
    }
    assert a[src..] == [];
    ExpandNothing();
    assert done + [] == done;
    if dst == 0 {
      return Err(LengthError);
    }
    ghost var out := a[..dst - 1];
    assert out == done[..dst - 1];
    data.Resize(dst - 1);
    assert data.Contents() == out;
    return Ok(());
  }
}
