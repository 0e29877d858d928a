/**
 The monitors that wait for three suspicious samples in a row before they report.  A run of
 suspicious samples starts afresh after every third one.
 */
module OomHysteresis {
  import opened Wrappers

  /** The length of the longest run of marked samples at the end of `marks`. */
  function RunAtEnd(marks: seq<bool>): nat {
    if marks == [] || !marks[|marks| - 1] then 0 else 1 + RunAtEnd(marks[..|marks| - 1])
  }

  lemma {:induction false} RunIsMaximal(marks: seq<bool>)
    ensures LongestRun(marks, RunAtEnd(marks))
    decreases |marks|
  {
    if marks != [] && marks[|marks| - 1] {
      var prefix := marks[..|marks| - 1];
      RunIsMaximal(prefix);
      assert forall i :: 0 <= i < |prefix| ==> marks[i] == prefix[i];
    }
  }

  /** The run of the last `n` samples is marked, and cannot be longer. */
  predicate LongestRun(marks: seq<bool>, n: nat) {
    && n <= |marks|
    && (forall i :: |marks| - n <= i < |marks| ==> marks[i])
    && (n < |marks| ==> !marks[|marks| - n - 1])
  }

  /** Whether the last sample completes a group of three in its run. */
  predicate CompletesThree(marks: seq<bool>) {
    RunAtEnd(marks) > 0 && RunAtEnd(marks) % 3 == 0
  }

  /** A counter that a third mark and an unmarked sample bring back to 0 is the run modulo three. */
  lemma CounterSteps(marks: seq<bool>, mark: bool)
    ensures var n := RunAtEnd(marks) % 3;
      && RunAtEnd(marks + [mark]) % 3 == (if mark && n < 2 then n + 1 else 0)
      && CompletesThree(marks + [mark]) == (mark && n == 2)
    ensures !mark ==> RunAtEnd(marks + [mark]) == 0
  {
    assert (marks + [mark])[..|marks|] == marks;
  }

  // ----- threads and file descriptors

  const OVER_THRESHOLD_COUNT_LIMIT := 3
  const FALL_BACK_GAP := 20

  /** Above the threshold, and not fallen by more than the gap since the sample before. */
  predicate Suspicious(threshold: int, samples: seq<int>, i: nat)
    requires i < |samples|
  {
    samples[i] > threshold && samples[i] >= (if i == 0 then 0 else samples[i - 1]) - FALL_BACK_GAP
  }

  function Marks(threshold: int, samples: seq<int>): seq<bool> {
    seq(|samples|, i requires 0 <= i < |samples| => Suspicious(threshold, samples, i))
  }

  /** Above the threshold and not fallen by more than 20; before the first sample there was 0. */
  predicate HighCount(threshold: int, samples: seq<int>, i: nat)
    requires i < |samples|
  {
    samples[i] > threshold && samples[i] + 20 >= if i == 0 then 0 else samples[i - 1]
  }

  /** The last `n` samples are such, and the one before them is not. */
  predicate IsCountRun(threshold: int, samples: seq<int>, n: nat) {
    && n <= |samples|
    && (forall i :: |samples| - n <= i < |samples| ==> HighCount(threshold, samples, i))
    && (n < |samples| ==> !HighCount(threshold, samples, |samples| - n - 1))
  }

  lemma CountRunIsLongest(threshold: int, samples: seq<int>)
    ensures IsCountRun(threshold, samples, RunAtEnd(Marks(threshold, samples)))
  {
    var marks := Marks(threshold, samples);
    RunIsMaximal(marks);
    assert forall i :: 0 <= i < |samples| ==> marks[i] == HighCount(threshold, samples, i);
  }

  /** The monitor of the thread count and, with another threshold, of the descriptor count. */
  class CountMonitor {
    const threshold: int
    const strictMode: bool
    var continuousOverThresholdCount: nat
    var lastCount: int

    /** All the samples so far. */
    ghost var samples: seq<int>

    ghost predicate Valid()
      reads this
    {
      && lastCount == (if samples == [] then 0 else samples[|samples| - 1])
      && continuousOverThresholdCount == if strictMode then 0 else RunAtEnd(Marks(threshold, samples)) % 3
    }

    constructor (threshold: int, strictMode: bool)
      ensures Valid() && samples == [] && this.threshold == threshold && this.strictMode == strictMode
    {
      this.threshold, this.strictMode := threshold, strictMode;
      continuousOverThresholdCount, lastCount, samples := 0, 0, [];
    }

    /**
     One run on a new sample: whether it reports, and the delay in milliseconds to the next run.
     `run` is the length of the run of suspicious samples that the new one ends.
     */
    method Run(count: int) returns (oom: bool, delay: nat, ghost run: nat)
      requires Valid()
      modifies this
      ensures Valid() && samples == old(samples) + [count]
      ensures oom == if strictMode then count > threshold else CompletesThree(Marks(threshold, samples))
      ensures delay
        == if !strictMode && RunAtEnd(Marks(threshold, samples)) % 3 != 0 then 1000 else 5000
      ensures IsCountRun(threshold, samples, run)
      ensures oom == if strictMode then count > threshold else run > 0 && run % 3 == 0
      ensures delay == if !strictMode && run % 3 != 0 then 1000 else 5000
    {
      ghost var marks := Marks(threshold, samples);
      ghost var mark := count > threshold && count >= lastCount - FALL_BACK_GAP;
      CounterSteps(marks, mark);
      samples := samples + [count];
      assert Marks(threshold, samples) == marks + [mark];
      oom := false;
      var oomConfirming := false;
      if count > threshold {
        if strictMode {
          oom := true;
        } else if count >= lastCount - FALL_BACK_GAP {
          continuousOverThresholdCount := continuousOverThresholdCount + 1;
          if continuousOverThresholdCount == OVER_THRESHOLD_COUNT_LIMIT {
            oom := true;
          } else {
            oomConfirming := true;
          }
        }
      }
      if !oomConfirming {
        continuousOverThresholdCount := 0;
      }
      lastCount := count;
      delay := (if oomConfirming then 1 else 5) * 1000;
      run := RunAtEnd(Marks(threshold, samples));
      CountRunIsLongest(threshold, samples);
    }
  }

  // ----- memory

  datatype OomType = JavaHeapOverFlow | JavaHeapSuddenlySwell | SystemMemoryExhausted

  /** The used share of system memory and of the heap, the heap in MB, and that of the record before. */
  datatype MemInfo = MemInfo(systemUsed: real, heapUsed: real, javaHeap: real, lastJavaHeap: Option<real>)

  datatype MemConfig = MemConfig(
    systemThreshold: real, swellThreshold: real, heapThreshold: real, strictMode: bool, maxHeap: int)
  {
    /** The system threshold of the configuration counts only if it is the lower one. */
    function System(): real {
      if systemThreshold < 0.95 then systemThreshold else 0.95
    }

    /** The overflow threshold, which outside strict mode depends on the size of the heap only. */
    function Overflow(): real {
      if strictMode then heapThreshold
      else if maxHeap >= 512 then 0.96
      else if maxHeap >= 384 then 0.95
      else if maxHeap >= 192 then 0.9
      else maxHeap as real * 0.9
    }
  }

  /** The first condition that a sample meets. */
  datatype Verdict = Exhausted | Full | Swollen | High | Fine

  function Judge(c: MemConfig, m: MemInfo): Verdict {
    if m.systemUsed > c.System() then Exhausted
    else if m.heapUsed > 0.98 then Full
    else if m.lastJavaHeap.Some? && m.javaHeap - m.lastJavaHeap.value > c.swellThreshold then Swollen
    else if m.heapUsed > c.Overflow() then High
    else Fine
  }

  /**
   Outside strict mode a sample can count as high if and only if the heap has 192 MB or more, or less
   than 2: in between the threshold is a number of MB, which no share of the heap exceeds.
   */
  lemma HighIsReachable(c: MemConfig)
    requires !c.strictMode
    ensures c.maxHeap >= 192 || c.maxHeap < 2
      <==> exists m: MemInfo :: 0.0 <= m.heapUsed <= 1.0 && Judge(c, m) == High
  {
    if c.maxHeap >= 192 || c.maxHeap < 2 {
      assert Judge(c, MemInfo(c.System(), 0.97, 0.0, None)) == High;
    }
  }

  predicate HighAndStaying(c: MemConfig, samples: seq<MemInfo>, i: nat)
    requires i < |samples|
  {
    && Judge(c, samples[i]) == High
    && samples[i].heapUsed >= (if i == 0 then 0.0 else samples[i - 1].heapUsed) - 0.05
  }

  function MemMarks(c: MemConfig, samples: seq<MemInfo>): seq<bool> {
    seq(|samples|, i requires 0 <= i < |samples| => HighAndStaying(c, samples, i))
  }

  /** Then no run of samples ever begins, so the monitor neither confirms nor reports a high sample. */
  lemma NothingToConfirm(c: MemConfig, samples: seq<MemInfo>)
    requires !c.strictMode && 2 <= c.maxHeap < 192
    requires forall i :: 0 <= i < |samples| ==> 0.0 <= samples[i].heapUsed <= 1.0
    ensures RunAtEnd(MemMarks(c, samples)) == 0
  {
    if samples != [] {
      HighIsReachable(c);
      assert Judge(c, samples[|samples| - 1]) != High;
    }
  }

  // The conditions in the words of the configuration.

  /** The system's memory is used up, by the configuration or by more than 95 per cent. */
  predicate SystemExhausted(c: MemConfig, m: MemInfo) {
    m.systemUsed > 0.95 || m.systemUsed > c.systemThreshold
  }

  predicate Swelled(c: MemConfig, m: MemInfo) {
    m.lastJavaHeap.Some? && m.javaHeap - m.lastJavaHeap.value > c.swellThreshold
  }

  /** Above the overflow threshold, which is the configured one in strict mode only. */
  predicate AboveThreshold(c: MemConfig, m: MemInfo) {
    if c.strictMode then m.heapUsed > c.heapThreshold
    else if c.maxHeap >= 512 then m.heapUsed > 0.96
    else if c.maxHeap >= 384 then m.heapUsed > 0.95
    else if c.maxHeap >= 192 then m.heapUsed > 0.9
    else m.heapUsed > c.maxHeap as real * 0.9
  }

  /** Only above the threshold, and not fallen by more than 5 per cent; before the first sample there was 0. */
  predicate HighHeap(c: MemConfig, samples: seq<MemInfo>, i: nat)
    requires i < |samples|
  {
    && !SystemExhausted(c, samples[i]) && samples[i].heapUsed <= 0.98
    && !Swelled(c, samples[i]) && AboveThreshold(c, samples[i])
    && samples[i].heapUsed + 0.05 >= if i == 0 then 0.0 else samples[i - 1].heapUsed
  }

  predicate IsHeapRun(c: MemConfig, samples: seq<MemInfo>, n: nat) {
    && n <= |samples|
    && (forall i :: |samples| - n <= i < |samples| ==> HighHeap(c, samples, i))
    && (n < |samples| ==> !HighHeap(c, samples, |samples| - n - 1))
  }

  lemma HeapRunIsLongest(c: MemConfig, samples: seq<MemInfo>)
    ensures IsHeapRun(c, samples, RunAtEnd(MemMarks(c, samples)))
  {
    var marks := MemMarks(c, samples);
    RunIsMaximal(marks);
    assert forall i :: 0 <= i < |samples| ==> marks[i] == HighHeap(c, samples, i);
  }

  lemma VerdictByConfig(c: MemConfig, m: MemInfo)
    ensures Judge(c, m) == Exhausted <==> SystemExhausted(c, m)
    ensures Judge(c, m) == Full <==> !SystemExhausted(c, m) && m.heapUsed > 0.98
    ensures Judge(c, m) == Swollen <==> !SystemExhausted(c, m) && m.heapUsed <= 0.98 && Swelled(c, m)
    ensures Judge(c, m) == High
      <==> !SystemExhausted(c, m) && m.heapUsed <= 0.98 && !Swelled(c, m) && AboveThreshold(c, m)
  {
  }

  class MemMonitor {
    const config: MemConfig
    var javaHeapContinuousOverThresholdCount: nat
    var lastJavaHeapRatio: real

    ghost var samples: seq<MemInfo>

    ghost predicate Valid()
      reads this
    {
      && lastJavaHeapRatio == (if samples == [] then 0.0 else samples[|samples| - 1].heapUsed)
      && javaHeapContinuousOverThresholdCount
         == if config.strictMode then 0 else RunAtEnd(MemMarks(config, samples)) % 3
    }

    constructor (config: MemConfig)
      ensures Valid() && samples == [] && this.config == config
    {
      this.config := config;
      javaHeapContinuousOverThresholdCount, lastJavaHeapRatio, samples := 0, 0.0, [];
    }

    /** `run` is the length of the run of samples that count that the new one ends. */
    method Run(memInfo: MemInfo) returns (oomType: Option<OomType>, delay: nat, ghost run: nat)
      requires Valid()
      modifies this
      ensures Valid() && samples == old(samples) + [memInfo]
      ensures oomType == match Judge(config, memInfo)
        case Exhausted => Some(SystemMemoryExhausted)
        case Full => Some(JavaHeapOverFlow)
        case Swollen => Some(JavaHeapSuddenlySwell)
        case High =>
          if config.strictMode || CompletesThree(MemMarks(config, samples)) then Some(JavaHeapOverFlow) else None
        case Fine => None
      ensures delay
        == if !config.strictMode && RunAtEnd(MemMarks(config, samples)) % 3 != 0 then 2000 else 10000
      ensures Judge(config, memInfo) != High ==> RunAtEnd(MemMarks(config, samples)) == 0
      ensures IsHeapRun(config, samples, run)
      ensures oomType == Some(SystemMemoryExhausted) <==> SystemExhausted(config, memInfo)
      ensures oomType == Some(JavaHeapSuddenlySwell) <==>
        !SystemExhausted(config, memInfo) && memInfo.heapUsed <= 0.98 && Swelled(config, memInfo)
      ensures oomType == Some(JavaHeapOverFlow) <==>
        && !SystemExhausted(config, memInfo)
        && (memInfo.heapUsed > 0.98
            || (!Swelled(config, memInfo) && AboveThreshold(config, memInfo)
                && (config.strictMode || (run > 0 && run % 3 == 0))))
      ensures delay == if !config.strictMode && run % 3 != 0 then 2000 else 10000
    {
      ghost var marks := MemMarks(config, samples);
      ghost var mark := Judge(config, memInfo) == High && memInfo.heapUsed >= lastJavaHeapRatio - 0.05;
      CounterSteps(marks, mark);
      samples := samples + [memInfo];
      assert MemMarks(config, samples) == marks + [mark];
      oomType := None;
      var oomConfirming := false;
      if memInfo.systemUsed > config.System() {
        oomType := Some(SystemMemoryExhausted);
      } else if memInfo.heapUsed > 0.98 {
        oomType := Some(JavaHeapOverFlow);
      } else if memInfo.lastJavaHeap.Some?
                && memInfo.javaHeap - memInfo.lastJavaHeap.value > config.swellThreshold {
        oomType := Some(JavaHeapSuddenlySwell);
      } else if memInfo.heapUsed > config.Overflow() {
        if config.strictMode {
          oomType := Some(JavaHeapOverFlow);
        } else if memInfo.heapUsed >= lastJavaHeapRatio - 0.05 {
          javaHeapContinuousOverThresholdCount := javaHeapContinuousOverThresholdCount + 1;
          if javaHeapContinuousOverThresholdCount == 3 {
            oomType := Some(JavaHeapOverFlow);
          } else {
            oomConfirming := true;
          }
        }
      }
      if !oomConfirming {
        javaHeapContinuousOverThresholdCount := 0;
      }
      lastJavaHeapRatio := memInfo.heapUsed;
      delay := (if oomConfirming then 2 else 10) * 1000;
      run := RunAtEnd(MemMarks(config, samples));
      HeapRunIsLongest(config, samples);
      VerdictByConfig(config, memInfo);
    }
  }
}
