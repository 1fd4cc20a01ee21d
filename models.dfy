/** The value types shared by the timer and the catalog (models.py). */
module Models {
  import opened Results

  /** The lifecycle states of a timer. `Paused` is declared but never entered. */
  datatype TimerState = Idle | Running | Paused | Finished | Cancelled
  {
    /** How Python renders the enum member in a message, e.g. "TimerState.RUNNING". */
    function Name(): (s: string)
      ensures |s| > |"TimerState."| && s[..|"TimerState."|] == "TimerState."
    {
      match this
      case Idle => "TimerState.IDLE"
      case Running => "TimerState.RUNNING"
      case Paused => "TimerState.PAUSED"
      case Finished => "TimerState.FINISHED"
      case Cancelled => "TimerState.CANCELLED"
    }
  }

  /**
   * One pasta type: its name and recommended cooking range in whole minutes.
   * Only the usage counter is ever updated in place; the catalog hands out
   * references to these records, so an update is seen through every alias.
   */
  class PastaInfo {
    const name: string
    const minTime: int
    const maxTime: int
    const isCustom: bool
    var usageCount: int
    const createdDate: Option<string>

    /** `PastaInfo(name, min_time, max_time)` with the dataclass defaults. */
    constructor (name: string, minTime: int, maxTime: int)
      ensures this.name == name && this.minTime == minTime && this.maxTime == maxTime
      ensures !isCustom && usageCount == 0 && createdDate == None
    {
      this.name := name;
      this.minTime := minTime;
      this.maxTime := maxTime;
      this.isCustom := false;
      this.usageCount := 0;
      this.createdDate := None;
    }

    /** `PastaInfo(...)` with every field given. */
    constructor Full(name: string, minTime: int, maxTime: int, isCustom: bool, usageCount: int, createdDate: Option<string>)
      ensures this.name == name && this.minTime == minTime && this.maxTime == maxTime
      ensures this.isCustom == isCustom && this.usageCount == usageCount && this.createdDate == createdDate
    {
      this.name := name;
      this.minTime := minTime;
      this.maxTime := maxTime;
      this.isCustom := isCustom;
      this.usageCount := usageCount;
      this.createdDate := createdDate;
    }

    /**
     * The `time_range` property: its two ends are the inclusive bounds of what
     * `is_valid_time` accepts.
     */
    function TimeRange(): (r: (int, int))
      ensures IsValidTime(r.0 as real) <==> r.0 <= r.1
      ensures IsValidTime(r.1 as real) <==> r.0 <= r.1
      ensures !IsValidTime((r.0 - 1) as real) && !IsValidTime((r.1 + 1) as real)
      ensures forall m: int :: AcceptsWholeMinutes(m) <==> r.0 <= m <= r.1
    {
      (minTime, maxTime)
    }

    /** `is_valid_time`: whether a (possibly fractional) number of minutes lies in the range. */
    function IsValidTime(minutes: real): bool
    {
      minTime as real <= minutes <= maxTime as real
    }

    /** `is_valid_time` asked about a whole number of minutes. */
    predicate AcceptsWholeMinutes(m: int)
    {
      IsValidTime(m as real)
    }

    /** `increment_usage`: one more use; nothing else about the record changes. */
    method IncrementUsage()
      modifies this`usageCount
      ensures usageCount == old(usageCount) + 1
    {
      usageCount := usageCount + 1;
    }
  }

  /** The range `time_range` reports is exactly the set of whole minutes `is_valid_time` accepts. */
  lemma ValidTimesAreTheRange(p: PastaInfo, m: int)
    ensures p.IsValidTime(m as real) <==> p.TimeRange().0 <= m <= p.TimeRange().1
  {
  }

  /** Both ends of the range are accepted, and the minutes just outside it are not. */
  lemma RangeIsInclusive(p: PastaInfo)
    requires p.minTime <= p.maxTime
    ensures p.IsValidTime(p.minTime as real) && p.IsValidTime(p.maxTime as real)
    ensures !p.IsValidTime((p.minTime - 1) as real) && !p.IsValidTime((p.maxTime + 1) as real)
  {
  }

  /** An event passed to the observers: its kind, the seconds left and the pasta being timed. */
  datatype TimerEvent = TimerEvent(eventType: string, remainingSeconds: int, pastaType: string)
  {
    /** The `minutes` property, Python's floor division by 60. */
    function Minutes(): (m: int)
      ensures m * 60 <= remainingSeconds < m * 60 + 60
    {
      remainingSeconds / 60
    }

    /** The `seconds` property, Python's `% 60`, never negative. */
    function Seconds(): (s: int)
      ensures 0 <= s < 60
      ensures (remainingSeconds - s) % 60 == 0
    {
      remainingSeconds % 60
    }
  }

  /** Minutes and seconds put back together give the remaining seconds (125 is 2:05). */
  lemma MinutesSecondsRecompose(e: TimerEvent)
    ensures e.Minutes() * 60 + e.Seconds() == e.remainingSeconds
    ensures 0 <= e.Seconds() < 60
    ensures e.remainingSeconds >= 0 ==> e.Minutes() >= 0
  {
  }

  lemma MinutesSecondsExample()
    ensures TimerEvent("tick", 125, "spaghetti").Minutes() == 2
    ensures TimerEvent("tick", 125, "spaghetti").Seconds() == 5
  {
  }
}
