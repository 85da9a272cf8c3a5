/** Stateless accept/reject checks. Each returns its input (or nothing) when it
    accepts and raises an invalid-input or invalid-configuration error when it
    rejects. The error messages and the field-name argument they print are not
    modelled. */
module InputValidation {
  import opened Errors
  import opened JavaInt
  import opened JavaText

  /** requirePositive: accepts exactly the values above zero. */
  function RequirePositive(value: int32): (r: Result<int32>)
    ensures r.Ok? <==> value > 0
    ensures r.Ok? ==> r.value == value
    ensures r.Err? ==> r.error == InvalidInput
  {
    if value <= 0 then Err(InvalidInput) else Ok(value)
  }

  /** requireInRange: both bounds inclusive. */
  function RequireInRange(value: int32, min: int32, max: int32): (r: Result<int32>)
    ensures r.Ok? <==> min <= value <= max
    ensures r.Ok? ==> r.value == value
    ensures r.Err? ==> r.error == InvalidInput
  {
    if value < min || value > max then Err(InvalidInput) else Ok(value)
  }

  /** An inverted range accepts nothing. */
  lemma InvertedRangeRejectsAll(value: int32, min: int32, max: int32)
    requires min > max
    ensures RequireInRange(value, min, max) == Err(InvalidInput)
  {
  }

  /** requireNonEmpty: rejects null and strings that are blank after trim, and
      returns the trimmed string. */
  function RequireNonEmpty(value: Option<string>): (r: Result<string>)
    ensures r.Ok? <==> value.Some? && exists k :: 0 <= k < |value.value| && !IsTrimmed(value.value[k])
    ensures r.Ok? ==> r.value == Trim(value.value) && |r.value| > 0
    ensures r.Ok? ==> !IsTrimmed(r.value[0]) && !IsTrimmed(r.value[|r.value| - 1])
    ensures r.Err? ==> r.error == InvalidInput
  {
    if value.None? || Trim(value.value) == "" then Err(InvalidInput) else Ok(Trim(value.value))
  }

  /** requireValidArchitecture: the non-empty check first, then an exact
      comparison of the untrimmed argument with "x86" and "x64". */
  function RequireValidArchitecture(architecture: Option<string>): (r: Result<string>)
    ensures r.Ok? <==> architecture.Some? && architecture.value in {"x86", "x64"}
    ensures r.Ok? ==> r.value == architecture.value
    ensures r.Err? ==> r.error == InvalidInput
  {
    match RequireNonEmpty(architecture)
    case Err(e) => Err(e)
    case Ok(_) =>
      if architecture.value != "x86" && architecture.value != "x64" then Err(InvalidInput)
      else Ok(architecture.value)
  }

  /** A padded name passes the non-empty step but fails the exact comparison. */
  lemma PaddedArchitectureRejected()
    ensures RequireNonEmpty(Some(" x86")) == Ok("x86")
    ensures RequireValidArchitecture(Some(" x86")) == Err(InvalidInput)
  {
    var s := " x86";
    assert !IsTrimmed(s[1]);
    assert TrimStart(s) == "x86" by {
      assert s[1..] == "x86";
    }
  }

  /** requireVirtualGreaterOrEqualPhysical: equal sizes are accepted. */
  function RequireVirtualGreaterOrEqualPhysical(virtualMemory: int32, physicalMemory: int32): (r: Outcome)
    ensures r == Pass <==> virtualMemory >= physicalMemory
    ensures r != Pass ==> r == Fail(InvalidConfiguration)
  {
    if virtualMemory < physicalMemory then Fail(InvalidConfiguration) else Pass
  }

  /** requirePowerOfTwo: `value <= 0 || (value & (value - 1)) != 0` rejects, so
      it accepts exactly the powers of two. */
  function RequirePowerOfTwo(value: int32): (r: Outcome)
    ensures r == Pass <==> IsPowerOfTwo(value)
    ensures r != Pass ==> r == Fail(InvalidConfiguration)
  {
    if value <= 0 then Fail(InvalidConfiguration)
    else
      AndPredecessorZeroIffPowerOfTwo(value);
      if AndPredecessor(value) != 0 then Fail(InvalidConfiguration) else Pass
  }

  /** requirePowerOfTwo is stricter than the bare bit test that the system
      configuration applies to the page size: everything it accepts passes the
      bit test, while 0 passes the bit test and is rejected here. */
  lemma PowerOfTwoCheckStricterThanBitTest(value: int32)
    ensures RequirePowerOfTwo(value) == Pass && value >= 0 ==> AndPredecessor(value) == 0
    ensures AndPredecessor(0) == 0 && RequirePowerOfTwo(0) != Pass
  {
    if value >= 1 { AndPredecessorZeroIffPowerOfTwo(value); }
  }

  /** requireNonEmptyList: rejects null and the empty list. */
  function RequireNonEmptyList<T>(list: Option<seq<T>>): (r: Outcome)
    ensures r == Pass <==> list.Some? && |list.value| > 0
    ensures r != Pass ==> r == Fail(InvalidInput)
  {
    if list.None? || |list.value| == 0 then Fail(InvalidInput) else Pass
  }
}
