/** useAnimatedValue: a displayed number that eases from the value shown when the
    target changed to the new target, one animation frame at a time. One session
    (one run of the effect) is modelled; frames are explicit calls that carry the
    frame's timestamp. The exponential easing is a parameter of which only its
    start point and its range are assumed. */
module Animation {

  datatype Option<T> = None | Some(value: T)

  /** The hook's default duration, in milliseconds. */
  const DefaultDuration: real := 800.0

  /** What the model assumes of the easing curve: it starts at 0 and stays within
      [0, 1] on [0, 1]. The page's 1 - 2^(-10p) has both properties. */
  ghost predicate EaseOk(ease: real -> real)
  {
    ease(0.0) == 0.0 && forall p :: 0.0 <= p <= 1.0 ==> 0.0 <= ease(p) <= 1.0
  }

  /** x lies in the closed interval spanned by a and b, in either order. */
  predicate Between(x: real, a: real, b: real)
  {
    (a <= x <= b) || (b <= x <= a)
  }

  /** `!startTimestamp`: no timestamp yet, and also a timestamp of 0, count as unset. */
  predicate Unset(t: Option<real>): (u: bool)
    ensures t == None ==> u
    ensures t == Some(0.0) ==> u
    ensures t.Some? && t.value != 0.0 ==> !u
  {
    t.None? || t.value == 0.0
  }

  /** The start time a frame at `timestamp` works with: the frame's own timestamp
      when the start time is unset, the recorded one otherwise. */
  function StartTime(t: Option<real>, timestamp: real): (s: real)
    ensures t == None || t == Some(0.0) ==> s == timestamp
    ensures t.Some? && t.value != 0.0 ==> s == t.value
  {
    if Unset(t) then timestamp else t.value
  }

  /** Math.min(elapsed / duration, 1): clamped from above only; non-negative when
      the elapsed time is. */
  function Progress(elapsed: real, duration: real): (p: real)
    requires duration > 0.0
    ensures p <= 1.0
    ensures elapsed >= 0.0 ==> 0.0 <= p
    ensures p == 1.0 <==> elapsed >= duration
    ensures p < 1.0 ==> p * duration == elapsed
    ensures elapsed == 0.0 ==> p == 0.0
  {
    var ratio := elapsed / duration;
    assert ratio * duration == elapsed;
    if ratio < 1.0 then ratio else 1.0
  }

  /** The eased fraction: exactly 1 at progress 1, the easing curve elsewhere. */
  function Eased(ease: real -> real, progress: real): (e: real)
    requires EaseOk(ease)
    ensures 0.0 <= progress <= 1.0 ==> 0.0 <= e <= 1.0
    ensures progress == 0.0 ==> e == 0.0
    ensures progress == 1.0 ==> e == 1.0
  {
    if progress == 1.0 then 1.0 else ease(progress)
  }

  /** startValue + (endValue - startValue) * eased: a fraction in [0, 1] gives a
      value between the two ends, 0 gives the start and 1 gives the end. */
  function Interpolate(startValue: real, endValue: real, eased: real): (v: real)
    ensures 0.0 <= eased <= 1.0 ==> Between(v, startValue, endValue)
    ensures eased == 0.0 ==> v == startValue
    ensures eased == 1.0 ==> v == endValue
  {
    var delta := endValue - startValue;
    assert 0.0 <= eased <= 1.0 && delta >= 0.0 ==> 0.0 <= delta * eased <= delta;
    assert 0.0 <= eased <= 1.0 && delta <= 0.0 ==> delta <= delta * eased <= 0.0;
    startValue + delta * eased
  }

  /** The value one frame publishes, given the session's start time. */
  function FrameValue(ease: real -> real, startValue: real, endValue: real, duration: real,
                      startTime: real, timestamp: real): (v: real)
    requires duration > 0.0 && EaseOk(ease)
    ensures startTime <= timestamp ==> Between(v, startValue, endValue)
    ensures timestamp == startTime ==> v == startValue
    ensures timestamp - startTime >= duration ==> v == endValue
  {
    Interpolate(startValue, endValue, Eased(ease, Progress(timestamp - startTime, duration)))
  }

  /** Whether a frame asks for another one: while progress is below 1. */
  function WantsNextFrame(duration: real, startTime: real, timestamp: real): (again: bool)
    requires duration > 0.0
    ensures again <==> timestamp - startTime < duration
  {
    Progress(timestamp - startTime, duration) < 1.0
  }

  /** The example of a session from 0 to 100 over 800 ms sampled halfway: with the
      page's curve the eased fraction there is 1 - 2^-5 = 0.96875, so the frame
      shows 96.875. */
  lemma HalfwayFrame(ease: real -> real)
    requires EaseOk(ease) && ease(0.5) == 0.96875
    ensures FrameValue(ease, 0.0, 100.0, DefaultDuration, 1000.0, 1400.0) == 96.875
  {
    assert Progress(400.0, DefaultDuration) == 0.5;
  }

  /** The state of one useAnimatedValue instance: the displayed value and the
      variables the current effect run closes over. */
  class AnimatedValue {
    const duration: real
    const ease: real -> real
    var displayValue: real
    var startTimestamp: Option<real>
    var startValue: real
    var endValue: real

    /** The displayed value always lies between the current run's start value and
        its target. */
    ghost predicate Valid()
      reads this
    {
      duration > 0.0 && EaseOk(ease) && Between(displayValue, startValue, endValue)
    }

    /** Mount: the state starts at the first value and the effect's first run
        animates from that value to itself. */
    constructor (value: real, duration: real, ease: real -> real)
      requires duration > 0.0 && EaseOk(ease)
      ensures Valid()
      ensures this.duration == duration && this.ease == ease
      ensures displayValue == value && startValue == value && endValue == value
      ensures startTimestamp == None
    {
      this.duration := duration;
      this.ease := ease;
      displayValue := value;
      startTimestamp := None;
      startValue := value;
      endValue := value;
    }

    /** A render with a new target value re-runs the effect: the new run starts
        from the value currently displayed, with no start time, and requests a
        first frame. A render with the same value does not re-run it. */
    method Retarget(value: real) returns (scheduled: bool)
      requires Valid()
      modifies this
      ensures Valid()
      ensures scheduled <==> value != old(endValue)
      ensures scheduled ==> startValue == old(displayValue) && endValue == value && startTimestamp == None
      ensures !scheduled ==> startValue == old(startValue) && endValue == old(endValue) && startTimestamp == old(startTimestamp)
      ensures displayValue == old(displayValue)
    {
      scheduled := value != endValue;
      if scheduled {
        startTimestamp := None;
        startValue := displayValue;
        endValue := value;
      }
    }

    /** One animation frame: records the start time if it is unset, publishes the
        eased value and reports whether it requests another frame. Frame
        timestamps do not run backwards past the run's recorded start. */
    method Step(timestamp: real) returns (again: bool)
      requires Valid()
      requires !Unset(startTimestamp) ==> startTimestamp.value <= timestamp
      modifies this
      ensures Valid()
      ensures startTimestamp == if Unset(old(startTimestamp)) then Some(timestamp) else old(startTimestamp)
      ensures startValue == old(startValue) && endValue == old(endValue)
      ensures displayValue == FrameValue(ease, startValue, endValue, duration, StartTime(old(startTimestamp), timestamp), timestamp)
      ensures again == WantsNextFrame(duration, StartTime(old(startTimestamp), timestamp), timestamp)
      ensures Unset(old(startTimestamp)) ==> displayValue == startValue && again
      ensures !again ==> displayValue == endValue
    {
      if Unset(startTimestamp) {
        startTimestamp := Some(timestamp);
      }
      var progress := Progress(timestamp - startTimestamp.value, duration);
      var eased := Eased(ease, progress);
      displayValue := Interpolate(startValue, endValue, eased);
      again := progress < 1.0;
    }
  }
}
