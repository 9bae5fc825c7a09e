/**
 * The voice/subtitle sync view: a looping playback clock counted in
 * tenths of a second, and the caption shown at each moment.
 */
module SubtitleSync {
  import opened Wrappers

  /** The mock recording's length: 20 seconds, in deciseconds. */
  const Duration: nat := 200

  /**
   * One clock tick: a clock at or past the end loops back to 0, any other
   * advances by one decisecond. The clock never passes the end, and a clock
   * inside the recording stays inside it.
   */
  function NextTime(t: int): (r: int)
    ensures r <= Duration
    ensures r == 0 || r == t + 1
    ensures 0 <= t < Duration ==> r == t + 1
    ensures t == Duration ==> r == 0
    ensures 0 <= t <= Duration ==> 0 <= r <= Duration
  {
    if t >= Duration then 0 else t + 1
  }

  /** The clock after `n` ticks from `t`. */
  function Ticks(n: nat, t: int): int
  {
    if n == 0 then t else NextTime(Ticks(n - 1, t))
  }

  /** How many of the first `n` ticks from `t` looped back to 0. */
  function Wraps(n: nat, t: int): nat
  {
    if n == 0 then 0 else Wraps(n - 1, t) + (if Ticks(n - 1, t) >= Duration then 1 else 0)
  }

  /** A clock inside the recording stays inside it, whatever the number of ticks. */
  lemma {:induction false} TicksStayInRange(n: nat, t: int)
    requires 0 <= t <= Duration
    ensures 0 <= Ticks(n, t) <= Duration
  {
    if n > 0 {
      TicksStayInRange(n - 1, t);
    }
  }

  /** Counting one more tick: the remainder restarts at 0 exactly when the quotient goes up by one. */
  lemma CountStep(n: nat)
    requires n > 0
    ensures (n - 1) % (Duration + 1) == Duration ==>
      n % (Duration + 1) == 0 && n / (Duration + 1) == (n - 1) / (Duration + 1) + 1
    ensures (n - 1) % (Duration + 1) != Duration ==>
      n % (Duration + 1) == (n - 1) % (Duration + 1) + 1 && n / (Duration + 1) == (n - 1) / (Duration + 1)
  {
  }

  /** From 0 the clock counts ticks modulo 201: the end, 200, is shown for one tick before the loop. */
  lemma {:induction false} TicksFromZero(n: nat)
    ensures Ticks(n, 0) == n % (Duration + 1)
  {
    if n > 0 {
      TicksFromZero(n - 1);
      CountStep(n);
    }
  }


  /** From 0 the clock has looped once per 201 ticks. */
  lemma {:induction false} WrapsFromZero(n: nat)
    ensures Wraps(n, 0) == n / (Duration + 1)
  {
    if n > 0 {
      WrapsFromZero(n - 1);
      TicksFromZero(n - 1);
      CountStep(n);
    }
  }


  /** Before the loop the clock reads the number of ticks. */
  lemma TicksBeforeLoop(n: nat)
    requires n <= Duration
    ensures Ticks(n, 0) == n
  {
    TicksFromZero(n);
  }

  /** After every 201 ticks from 0 the clock is back at 0, having looped once per 201 ticks. */
  lemma FullLoops(k: nat)
    ensures Ticks(k * (Duration + 1), 0) == 0 && Wraps(k * (Duration + 1), 0) == k
  {
    TicksFromZero(k * (Duration + 1));
    WrapsFromZero(k * (Duration + 1));
  }

  /**
   * The view's clock state: the current time, whether a sync is pending,
   * whether a sync has completed, and whether the ticking interval is armed.
   */
  class Timeline {
    var currentTime: int
    var syncing: bool
    var synced: bool
    var running: bool

    predicate Valid()
      reads this
    {
      0 <= currentTime <= Duration && (running ==> synced)
    }

    constructor ()
      ensures Valid()
      ensures currentTime == 0 && !syncing && !synced && !running
    {
      currentTime := 0;
      syncing := false;
      synced := false;
      running := false;
    }

    /** `handleSync`: the clock goes back to 0, a sync is pending, and the interval is cleared. */
    method Sync()
      requires Valid()
      modifies this
      ensures Valid()
      ensures currentTime == 0 && syncing && !running && synced == old(synced)
    {
      syncing := true;
      currentTime := 0;
      running := false;
    }

    /**
     * The sync completing, as written: `isSynced` becomes true, and the
     * effect that arms the interval runs only when it was false before.
     */
    method SettleAsWritten()
      requires Valid()
      modifies this
      ensures Valid()
      ensures !syncing && synced && currentTime == old(currentTime)
      ensures running == (old(running) || !old(synced))
    {
      syncing := false;
      if !synced {
        synced := true;
        running := true;
      }
    }

    /** The sync completing, corrected: the interval is armed on every completed sync. */
    method Settle()
      requires Valid()
      modifies this
      ensures Valid()
      ensures !syncing && synced && running && currentTime == old(currentTime)
    {
      syncing := false;
      synced := true;
      running := true;
    }

    /** One firing of the interval: when armed the clock ticks, otherwise nothing happens. */
    method Tick()
      requires Valid()
      modifies this
      ensures Valid()
      ensures currentTime == (if old(running) then NextTime(old(currentTime)) else old(currentTime))
      ensures syncing == old(syncing) && synced == old(synced) && running == old(running)
    {
      if running {
        currentTime := NextTime(currentTime);
      }
    }
  }

  /**
   * Syncing twice, as written: after the second sync no interval is armed,
   * so the clock stays at 0 however often it would have ticked.
   */
  method ResyncAsWritten() returns (afterFirst: int, afterSecond: int, armed: bool)
    ensures afterFirst == 1
    ensures afterSecond == 0 && !armed
  {
    var timeline := new Timeline();
    timeline.Sync();
    timeline.SettleAsWritten();
    timeline.Tick();
    afterFirst := timeline.currentTime;
    timeline.Sync();
    timeline.SettleAsWritten();
    timeline.Tick();
    timeline.Tick();
    afterSecond := timeline.currentTime;
    armed := timeline.running;
  }

  /** Syncing twice with the corrected completion: the clock runs again after the second sync. */
  method Resync() returns (afterFirst: int, afterSecond: int, armed: bool)
    ensures afterFirst == 1
    ensures afterSecond == 2 && armed
  {
    var timeline := new Timeline();
    timeline.Sync();
    timeline.Settle();
    timeline.Tick();
    afterFirst := timeline.currentTime;
    timeline.Sync();
    timeline.Settle();
    timeline.Tick();
    timeline.Tick();
    afterSecond := timeline.currentTime;
    armed := timeline.running;
  }

  /** A caption shown from `start` (inclusive) to `end` (exclusive), in deciseconds, in English and Bengali. */
  datatype Caption = Caption(start: int, end: int, textEn: string, textBn: string)

  predicate Covers(c: Caption, t: int) {
    c.start <= t < c.end
  }

  /** The mock captions, in deciseconds. */
  const MockCaptions: seq<Caption> := [
    Caption(0, 40, "Welcome to the GN AI Authority broadcast.", "জিএন এআই কর্তৃপক্ষের সম্প্রচারে স্বাগতম।"),
    Caption(45, 80, "Today, we discuss the new food safety reform.", "আজ, আমরা নতুন খাদ্য নিরাপত্তা সংস্কার নিয়ে আলোচনা করব।"),
    Caption(85, 120, "This civic action is crucial for public health.", "এই নাগরিক পদক্ষেপ জনস্বাস্থ্যের জন্য অত্যন্ত গুরুত্বপূর্ণ।"),
    Caption(125, 160, "Our diaspora justice program ensures transparency.", "আমাদের ডায়াস্পোরা বিচার কর্মসূচি স্বচ্ছতা নিশ্চিত করে।"),
    Caption(165, 200, "Engage with us to strengthen the reform.", "সংস্কারকে শক্তিশালী করতে আমাদের সাথে যুক্ত হন।")
  ]

  /** Caption `i` covers `t` and no caption before it does. */
  predicate FirstCovering(captions: seq<Caption>, t: int, i: int) {
    0 <= i < |captions| && Covers(captions[i], t) && forall j :: 0 <= j < i ==> !Covers(captions[j], t)
  }

  /**
   * `activeSubtitle`: the first caption covering `t`, or None when no
   * caption covers it.
   */
  function ActiveCaption(captions: seq<Caption>, t: int): (r: Option<Caption>)
    ensures r.None? <==> forall i :: 0 <= i < |captions| ==> !Covers(captions[i], t)
    ensures r.Some? ==>
      exists i :: FirstCovering(captions, t, i) && captions[i] == r.value
  {
    if captions == [] then None
    else if Covers(captions[0], t) then Some(captions[0])
    else
      var r := ActiveCaption(captions[1..], t);
      assert forall i :: 1 <= i < |captions| ==> captions[i] == captions[1..][i - 1];
      r
  }

  /** Captions in order, each ending no later than the next one starts. */
  predicate SortedDisjoint(captions: seq<Caption>) {
    forall i, j :: 0 <= i < j < |captions| ==> captions[i].end <= captions[j].start
  }

  /** In sorted, disjoint captions at most one caption covers any moment. */
  lemma AtMostOneCovers(captions: seq<Caption>, t: int, i: int, j: int)
    requires SortedDisjoint(captions)
    requires 0 <= i < |captions| && 0 <= j < |captions|
    requires captions[i].start < captions[i].end && captions[j].start < captions[j].end
    requires Covers(captions[i], t) && Covers(captions[j], t)
    ensures i == j
  {
  }

  /** In sorted, disjoint captions the shown caption is the one that covers the moment, if any. */
  lemma ActiveCaptionIsCovering(captions: seq<Caption>, t: int, i: int)
    requires SortedDisjoint(captions)
    requires 0 <= i < |captions| && Covers(captions[i], t)
    ensures ActiveCaption(captions, t) == Some(captions[i])
  {
    var r := ActiveCaption(captions, t);
    var k :| FirstCovering(captions, t, k) && captions[k] == r.value;
    assert k <= i;
    assert k >= i;
  }

  /** The mock captions are sorted and disjoint, each of positive length, and none outlasts the recording. */
  lemma MockCaptionsSortedDisjoint()
    ensures SortedDisjoint(MockCaptions)
    ensures forall i :: 0 <= i < |MockCaptions| ==> 0 <= MockCaptions[i].start < MockCaptions[i].end <= Duration
  {
  }

  /** At the start the first caption is shown; at 4.2 s, in a gap, and at the end, 20 s, none is. */
  lemma MockCaptionLookups()
    ensures ActiveCaption(MockCaptions, 0) == Some(MockCaptions[0])
    ensures ActiveCaption(MockCaptions, 42) == None
    ensures ActiveCaption(MockCaptions, Duration) == None
    ensures forall t :: 0 <= t < 40 ==> ActiveCaption(MockCaptions, t) == Some(MockCaptions[0])
  {
    MockCaptionsSortedDisjoint();
    forall t | 0 <= t < 40
      ensures ActiveCaption(MockCaptions, t) == Some(MockCaptions[0])
    {
      ActiveCaptionIsCovering(MockCaptions, t, 0);
    }
  }
}
