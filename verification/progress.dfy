/** The progress-throttling rule shared by the sender and the receiver
    (src/network/FileSender.java:117-123, src/network/FileReceiver.java:193-199,
    and with literal constants in src/backup/FileSender.java:246-250).

    After each chunk the running total is turned into a percentage
    `current = total * 100 / fileSize`; a value is emitted when it has moved
    more than `PercentStep` points past the last emitted one, or when more
    than `ByteStep` bytes have gone by since the byte position that the last
    emitted percentage stands for. Both operands are non-negative wherever the
    rule runs, so Java's truncating division and Dafny's agree. */
module Progress {

  /** `Config.PROGRESS_UPDATE_PERCENTAGE` (src/utils/Config.java:15). */
  const PercentStep: int := 5
  /** `Config.PROGRESS_UPDATE_BYTES` (src/utils/Config.java:16). */
  const ByteStep: int := 262144
  /** `Config.BUFFER_SIZE` (src/utils/Config.java:14). */
  const BufferSize: int := 4096

  /** The loop's `totalBytesRead` and `lastProgressUpdate`, with the values
      handed to the progress callback so far. */
  datatype Tracker = Tracker(total: int, last: int, emitted: seq<int>)

  const Start: Tracker := Tracker(0, 0, [])

  function Percent(fileSize: int, total: int): int
    requires fileSize > 0
  {
    total * 100 / fileSize
  }

  /** The emission test, evaluated after the running total has grown. */
  predicate Fires(fileSize: int, total: int, last: int)
    requires fileSize > 0
  {
    Percent(fileSize, total) > last + PercentStep
    || total - last * fileSize / 100 > ByteStep
  }

  /** One loop iteration's bookkeeping after a chunk of `n` bytes. */
  function Step(fileSize: int, t: Tracker, n: nat): Tracker
    requires fileSize > 0
  {
    var total := t.total + n;
    var current := Percent(fileSize, total);
    if Fires(fileSize, total, t.last) then Tracker(total, current, t.emitted + [current])
    else Tracker(total, t.last, t.emitted)
  }

  /** The bookkeeping after the chunks, in order. The division only happens
      once a chunk has arrived, so an empty run needs no positive size. */
  function Run(fileSize: int, chunks: seq<nat>): Tracker
    requires fileSize > 0 || |chunks| == 0
  {
    if |chunks| == 0 then Start
    else Step(fileSize, Run(fileSize, chunks[..|chunks| - 1]), chunks[|chunks| - 1])
  }

  function Sum(chunks: seq<nat>): nat {
    if |chunks| == 0 then 0 else Sum(chunks[..|chunks| - 1]) + chunks[|chunks| - 1]
  }

  function Emissions(fileSize: int, chunks: seq<nat>): seq<int>
    requires fileSize > 0 || |chunks| == 0
  {
    Run(fileSize, chunks).emitted
  }

  predicate NonDecreasing(s: seq<int>) {
    forall i, j :: 0 <= i < j < |s| ==> s[i] <= s[j]
  }

  predicate WithinPercent(s: seq<int>) {
    forall i :: 0 <= i < |s| ==> 0 <= s[i] <= 100
  }

  /** What holds of the tracker after every iteration: `last` is the last
      value emitted (0 before any), it never runs ahead of the current
      percentage, and the emitted values climb. */
  predicate Consistent(fileSize: int, t: Tracker)
    requires fileSize > 0
  {
    && t.total >= 0
    && 0 <= t.last <= Percent(fileSize, t.total)
    && (|t.emitted| > 0 ==> t.emitted[|t.emitted| - 1] == t.last)
    && (forall i :: 0 <= i < |t.emitted| ==> 0 <= t.emitted[i] <= t.last)
    && NonDecreasing(t.emitted)
  }

  lemma DivMonotone(x: int, y: int, d: int)
    requires 0 <= x <= y && d > 0
    ensures 0 <= x / d <= y / d
  {
    var q1, q2 := x / d, y / d;
    assert d * q1 <= x;
    assert y < d * q2 + d;
    assert d * q1 < d * (q2 + 1);
    MulCancel(d, q1, q2 + 1);
  }

  lemma MulCancel(d: int, a: int, b: int)
    requires d > 0 && d * a < d * b
    ensures a < b
  {
    assert d * (b - a) > 0;
  }

  lemma PercentMonotone(fileSize: int, a: int, b: int)
    requires fileSize > 0 && 0 <= a <= b
    ensures 0 <= Percent(fileSize, a) <= Percent(fileSize, b)
  {
    DivMonotone(a * 100, b * 100, fileSize);
  }

  lemma StepConsistent(fileSize: int, t: Tracker, n: nat)
    requires fileSize > 0 && Consistent(fileSize, t)
    ensures Consistent(fileSize, Step(fileSize, t, n))
    ensures Step(fileSize, t, n).total == t.total + n
  {
    PercentMonotone(fileSize, t.total, t.total + n);
  }

  /** The running total is the sum of the chunks and every emitted value is
      at least the one before it. */
  lemma {:induction false} RunConsistent(fileSize: int, chunks: seq<nat>)
    requires fileSize > 0
    ensures Consistent(fileSize, Run(fileSize, chunks))
    ensures Run(fileSize, chunks).total == Sum(chunks)
    decreases |chunks|
  {
    if |chunks| > 0 {
      RunConsistent(fileSize, chunks[..|chunks| - 1]);
      StepConsistent(fileSize, Run(fileSize, chunks[..|chunks| - 1]), chunks[|chunks| - 1]);
    }
  }

  /** When no more bytes go by than the declared size, the emitted values are
      non-decreasing percentages in 0..100. */
  lemma EmissionsAreMonotonePercentages(fileSize: int, chunks: seq<nat>)
    requires fileSize > 0
    requires Sum(chunks) <= fileSize
    ensures NonDecreasing(Emissions(fileSize, chunks))
    ensures WithinPercent(Emissions(fileSize, chunks))
  {
    RunConsistent(fileSize, chunks);
    var t := Run(fileSize, chunks);
    PercentMonotone(fileSize, t.total, fileSize);
    assert Percent(fileSize, fileSize) == 100 by {
      HundredTimesOver(fileSize);
    }
  }

  lemma HundredTimesOver(d: int)
    requires d > 0
    ensures d * 100 / d == 100
  {
    var q := d * 100 / d;
    assert d * q <= d * 100 < d * q + d;
    MulCancel(d, q, 101);
    MulCancel(d, 99, q);
  }

  /** A final 100 is not guaranteed: the whole file goes by but the last
      chunk moves the percentage by too little for either test. */
  lemma NoFinalHundred()
    ensures Sum([97, 3]) == 100
    ensures Emissions(100, [97, 3]) == [97]
  {
    var both: seq<nat> := [97, 3];
    var first: seq<nat> := [97];
    assert both[..1] == first && first[..0] == [];
    assert Run(100, [97]) == Tracker(97, 97, [97]);
  }

  /** The byte test can emit the same percentage again: on a large file two
      chunks of 300000 bytes each pass the 262144-byte threshold while the
      percentage is still 0. */
  lemma ByteTestRepeatsPercentage()
    ensures Emissions(100_000_000, [300000, 300000]) == [0, 0]
  {
    var both: seq<nat> := [300000, 300000];
    var first: seq<nat> := [300000];
    assert both[..1] == first && first[..0] == [];
    assert Run(100_000_000, [300000]) == Tracker(300000, 0, [0]);
  }

  function Repeat(n: nat, k: nat): (r: seq<nat>)
    ensures |r| == k
  {
    seq(k, i => n)
  }

  function MultiplesOfSix(m: nat): (r: seq<int>)
    ensures |r| == m
  {
    seq(m, i => 6 * (i + 1))
  }

  /** A 409600-byte file read in 4096-byte chunks advances one point per
      chunk; after `k` chunks every sixth point has been emitted. */
  lemma {:induction false} UniformOnePercentChunks(k: nat)
    requires k <= 100
    ensures Run(409600, Repeat(4096, k)) == Tracker(4096 * k, 6 * (k / 6), MultiplesOfSix(k / 6))
    decreases k
  {
    if k > 0 {
      var prev := Repeat(4096, k)[..k - 1];
      assert prev == Repeat(4096, k - 1);
      UniformOnePercentChunks(k - 1);
      UniformChunkFires(k);
      if k % 6 == 0 {
        assert MultiplesOfSix(k / 6) == MultiplesOfSix((k - 1) / 6) + [k];
      }
    }
  }

  /** The `k`-th chunk of 4096 bytes brings the file to `k` percent and fires
      exactly when `k` is a multiple of six. */
  lemma UniformChunkFires(k: nat)
    requires 1 <= k <= 100
    ensures Percent(409600, 4096 * k) == k
    ensures Fires(409600, 4096 * k, 6 * ((k - 1) / 6)) <==> k % 6 == 0
    ensures k % 6 == 0 ==> k / 6 == (k - 1) / 6 + 1
    ensures k % 6 != 0 ==> k / 6 == (k - 1) / 6
  {
    var last := 6 * ((k - 1) / 6);
    assert 0 <= k - last <= 6;
    assert last * 409600 / 100 == last * 4096;
    assert 4096 * k - last * 4096 == 4096 * (k - last);
  }

  /** The example of a whole file whose progress stops at 96: a 409600-byte
      file in 4096-byte chunks emits 6, 12, ..., 96 and never 100. */
  lemma StopsAtNinetySix()
    ensures Sum(Repeat(4096, 100)) == 409600
    ensures Emissions(409600, Repeat(4096, 100)) == MultiplesOfSix(16)
    ensures 100 !in Emissions(409600, Repeat(4096, 100))
  {
    UniformOnePercentChunks(100);
    RunConsistent(409600, Repeat(4096, 100));
  }
}
