/** The two process-wide matching thresholds, `TIME_DIFF_THRESHOLD` (seconds,
    default 2) and `HASH_DIFF_THRESHOLD` (default 10), and the two ways the
    scripts change them: `update_thresholds` in the desktop tools, which keeps
    the previous value of a field that does not parse, and `upload_folder` in the
    web tool, which answers an error when either field does not parse. The text
    fields arrive here already converted by `float()` / `int()`, None when the
    conversion raised. */
module Thresholds {
  import opened Common

  const DefaultTimeDiff: real := 2.0
  const DefaultHashDiff: int := 10
  const MinTimeDiff: real := 0.01
  const MinHashDiff: int := 1

  /** `max(0.01, t)`. */
  function ClampTime(t: real): (r: real)
    ensures r >= MinTimeDiff
    ensures t >= MinTimeDiff ==> r == t
    ensures t < MinTimeDiff ==> r == MinTimeDiff
  {
    if t > MinTimeDiff then t else MinTimeDiff
  }

  /** `max(1, h)`. */
  function ClampHash(h: int): (r: int)
    ensures r >= MinHashDiff
    ensures h >= MinHashDiff ==> r == h
    ensures h < MinHashDiff ==> r == MinHashDiff
  {
    if h > MinHashDiff then h else MinHashDiff
  }

  class Settings {
    var timeDiff: real
    var hashDiff: int

    /** Both thresholds are at or above their clamps. */
    ghost predicate Valid()
      reads this
    {
      timeDiff >= MinTimeDiff && hashDiff >= MinHashDiff
    }

    constructor ()
      ensures Valid()
      ensures timeDiff == DefaultTimeDiff && hashDiff == DefaultHashDiff
    {
      timeDiff := DefaultTimeDiff;
      hashDiff := DefaultHashDiff;
    }

    /** `update_thresholds`: each field is clamped and taken when it parses, and
        keeps its previous value when it does not. */
    method UpdateThresholds(timeInput: Option<real>, hashInput: Option<int>)
      requires Valid()
      modifies this
      ensures Valid()
      ensures timeDiff == if timeInput.Some? then ClampTime(timeInput.value) else old(timeDiff)
      ensures hashDiff == if hashInput.Some? then ClampHash(hashInput.value) else old(hashDiff)
    {
      if timeInput.Some? {
        timeDiff := ClampTime(timeInput.value);
      }
      if hashInput.Some? {
        hashDiff := ClampHash(hashInput.value);
      }
    }

    /** The threshold part of `upload_folder`: both assignments sit in one `try`,
        so a time field that does not parse leaves both thresholds alone and a
        hash field that does not parse still leaves the new time threshold in
        place; either failure answers an error and starts no processing. */
    method UploadThresholds(timeInput: Option<real>, hashInput: Option<int>) returns (ok: bool)
      requires Valid()
      modifies this
      ensures Valid()
      ensures ok <==> timeInput.Some? && hashInput.Some?
      ensures timeDiff == if timeInput.Some? then ClampTime(timeInput.value) else old(timeDiff)
      ensures hashDiff == if ok then ClampHash(hashInput.value) else old(hashDiff)
    {
      if timeInput.None? {
        return false;
      }
      timeDiff := ClampTime(timeInput.value);
      if hashInput.None? {
        return false;
      }
      hashDiff := ClampHash(hashInput.value);
      ok := true;
    }
  }
}
