/**
 The progress meter of a download (test_client.c:47-53, 118-120): `viewinfo` starts at 1, and after
 a chunk it goes up by one if the bytes counted are past ten percent times viewinfo, where one
 percent is the integer file_len / 100. It prints viewinfo * 10 percent as it goes up.
 */
module Meter {
  import opened NetProtocol
  import opened Framing
  import opened FileClient

  // Full chunks of a file; one more, short and possibly empty, ends the transfer.
  function FullChunks(len: u32): nat {
    len / CHUNK
  }

  function Counted(len: u32, k: nat): nat {
    Min(CHUNK * k, len)
  }

  // viewinfo after k chunks
  function View(len: u32, k: nat): nat {
    if k == 0 then 1
    else
      var v := View(len, k - 1);
      if Counted(len, k) > Threshold(len, v) then v + 1 else v
  }

  function TenPercent(len: u32): nat {
    10 * (len / 100)
  }

  // What the terms mean after k chunks, in numerals.
  lemma MeterTerms(len: u32, k: nat)
    ensures Honest(len, k) <==> (View(len, k) > 1 ==> Min(1024 * k, len) > 10 * (len / 100) * (View(len, k) - 1))
    ensures UpToDate(len, k) <==> Min(1024 * k, len) <= 10 * (len / 100) * View(len, k)
    ensures k == 0 ==> View(len, k) == 1
    ensures k > 0 ==>
              var (v, count) := (View(len, k - 1), Min(1024 * k, len));
              View(len, k) == if count > (len / 100) * (v * 10) % 4294967296 then v + 1 else v
  {
  }

  // What has been printed has been counted.
  predicate Honest(len: u32, k: nat) {
    View(len, k) > 1 ==> Counted(len, k) > TenPercent(len) * (View(len, k) - 1)
  }

  // What has been counted, in whole tenths, has been printed.
  predicate UpToDate(len: u32, k: nat) {
    Counted(len, k) <= TenPercent(len) * View(len, k)
  }

  lemma ThresholdIs(len: u32, v: nat)
    ensures Threshold(len, v) == TenPercent(len) * v % 0x1_0000_0000
    ensures Threshold(len, v) <= TenPercent(len) * v
    ensures v <= 10 ==> Threshold(len, v) == TenPercent(len) * v
    ensures v == 11 ==> Threshold(len, v) == if TenPercent(len) * 11 < 0x1_0000_0000 then TenPercent(len) * 11
                                             else TenPercent(len) * 11 - 0x1_0000_0000
  {
    var q := len / 100;
    assert q * (v * 10) == (10 * q) * v;
    assert v <= 10 ==> (10 * q) * v <= (10 * q) * 10;
  }

  lemma Grows(t: nat, v: nat)
    ensures t * (v + 1) == t * v + t
  {
  }

  lemma AtLeast(t: nat, v: nat, w: nat)
    requires v <= w
    ensures t * v <= t * w
  {
  }

  // While the chunks are full, the meter is honest and does not pass 11.
  lemma {:induction false} HonestInside(len: u32, k: nat)
    requires k <= FullChunks(len)
    ensures 1 <= View(len, k) <= 11 && Honest(len, k)
  {
    if k > 0 {
      HonestInside(len, k - 1);
      var t, v := TenPercent(len), View(len, k - 1);
      assert len <= 10 * t + 99 && Counted(len, k - 1) + CHUNK <= len;
      assert v != 11;
      ThresholdIs(len, v);
      hide Threshold, TenPercent;
    }
  }

  predicate Overflows(len: u32) {
    var t := TenPercent(len);
    11 * t >= 0x1_0000_0000 && CHUNK * FullChunks(len) > 10 * t && len > 11 * t - 0x1_0000_0000
  }

  // The meter is honest after every chunk of a transfer, exactly if the threshold for 110 percent
  // is not computed, with overflow, by the last chunk.
  lemma MeterHonest(len: u32)
    ensures (forall k :: 0 <= k <= len / 1024 + 1 ==> Honest(len, k)) <==>
            !(110 * (len / 100) >= 4294967296 && 1024 * (len / 1024) > 100 * (len / 100)
              && len > 110 * (len / 100) - 4294967296)
  {
    forall k | 0 <= k <= FullChunks(len)
      ensures Honest(len, k)
    {
      HonestInside(len, k);
    }
    LastHonest(len);
  }

  lemma LastHonest(len: u32)
    ensures Honest(len, FullChunks(len) + 1) <==> !Overflows(len)
  {
    var n, t := FullChunks(len), TenPercent(len);
    var v := View(len, n);
    HonestInside(len, n);
    ThresholdIs(len, v);
    assert Counted(len, n + 1) == len && Counted(len, n) == CHUNK * n;
    if Overflows(len) {
      KeepsUp(len, n);
      if v <= 10 {
        AtLeast(t, v, 10);
      }
      assert v == 11 && len <= 10 * t + 99;
    } else if v == 11 {
      assert CHUNK * n > t * 10;
      assert len <= 10 * t + 99;
    }
  }

  // With tenths no smaller than a chunk the meter is never behind, overflow or not.
  lemma {:induction false} KeepsUp(len: u32, k: nat)
    requires 10 * (len / 100) >= 1024
    ensures View(len, k) >= 1 && UpToDate(len, k)
  {
    var t := TenPercent(len);
    if k > 0 {
      KeepsUp(len, k - 1);
      var v := View(len, k - 1);
      ThresholdIs(len, v);
      Grows(t, v);
      assert Counted(len, k) <= Counted(len, k - 1) + CHUNK;
    }
  }

  // With smaller tenths it goes up with every full chunk.
  lemma {:induction false} EveryChunk(len: u32, k: nat)
    requires TenPercent(len) < CHUNK && k <= FullChunks(len)
    ensures View(len, k) == k + 1
  {
    if k > 0 {
      EveryChunk(len, k - 1);
      var t := TenPercent(len);
      ThresholdIs(len, k);
      assert t * k < CHUNK * k by {
        SmallerTimes(t, CHUNK, k);
      }
    }
  }

  lemma SmallerTimes(a: nat, b: nat, k: nat)
    requires a < b && k > 0
    ensures a * k < b * k
  {
  }

  predicate SlowEnough(len: u32) {
    var t, n := TenPercent(len), FullChunks(len);
    t >= CHUNK || (CHUNK * n <= t * (n + 1) && len <= t * (n + 2))
  }

  // The meter is up to date after every chunk of a transfer exactly if the file is long enough for
  // its tenths, or so short that the few chunks there are do not outrun it.
  lemma MeterUpToDate(len: u32)
    ensures (forall k :: 1 <= k <= len / 1024 + 1 ==> UpToDate(len, k)) <==>
            || 10 * (len / 100) >= 1024
            || (1024 * (len / 1024) <= 10 * (len / 100) * (len / 1024 + 1)
                && len <= 10 * (len / 100) * (len / 1024 + 2))
  {
    var t, n := TenPercent(len), FullChunks(len);
    if t >= CHUNK {
      forall k | 1 <= k <= n + 1
        ensures UpToDate(len, k)
      {
        KeepsUp(len, k);
      }
    } else {
      LastUpToDate(len);
      if n > 0 {
        EveryChunk(len, n);
        assert UpToDate(len, n) <==> CHUNK * n <= t * (n + 1);
      }
      if SlowEnough(len) {
        forall k | 1 <= k <= n
          ensures UpToDate(len, k)
        {
          EveryChunk(len, k);
          EarlierChunks(t, k, n);
        }
      }
    }
  }

  // Each chunk adds more to the count than to the threshold.
  lemma EarlierChunks(t: nat, k: nat, n: nat)
    requires t < CHUNK && k <= n && CHUNK * n <= t * (n + 1)
    ensures CHUNK * k <= t * (k + 1)
  {
    AtLeast(CHUNK - t, k, n);
    assert (CHUNK - t) * k == CHUNK * k - t * k && (CHUNK - t) * n == CHUNK * n - t * n;
    Grows(t, k);
    Grows(t, n);
  }

  lemma LastUpToDate(len: u32)
    requires TenPercent(len) < CHUNK
    ensures UpToDate(len, FullChunks(len) + 1) <==> len <= TenPercent(len) * (FullChunks(len) + 2)
  {
    var t, n := TenPercent(len), FullChunks(len);
    EveryChunk(len, n);
    ThresholdIs(len, n + 1);
    Grows(t, n + 1);
    assert Counted(len, n + 1) == len;
    assert t * (n + 1) < 0x1_0000_0000 by {
      AtLeast(t, n + 1, 12);
    }
  }

  // Both bounds at any point of a transfer.
  lemma Bounds(len: u32, k: nat)
    requires k <= len / 1024 + 1
    ensures var (t, v, count) := (10 * (len / 100), View(len, k), Counted(len, k));
            && (!(11 * t >= 4294967296 && 1024 * (len / 1024) > 10 * t && len > 11 * t - 4294967296) && v > 1 ==>
                  count > t * (v - 1))
            && (t >= 1024 ==> count <= t * v)
  {
    hide View;
    MeterHonest(len);
    MeterTerms(len, k);
    assert !Overflows(len) ==> Honest(len, k);
    if TenPercent(len) >= 1024 {
      KeepsUp(len, k);
    }
  }

  // A file that the meter does not keep up with, and one that it overstates.
  lemma MeterExceptions()
    ensures !SlowEnough(5000) && !UpToDate(5000, 5)
    ensures Overflows(4096001024) && !Honest(4096001024, 4096001024 / 1024 + 1)
  {
    EveryChunk(5000, 4);
    LastUpToDate(5000);
    LastHonest(4096001024);
  }
}
