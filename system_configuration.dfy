/** System parameters and the three values derived from them once, at
    construction: page size, number of frames and swap size. All arguments and
    fields are Java `int`s; every division below has non-negative operands, so
    Dafny's `/` agrees with Java's truncating division. */
module SystemConfigurations {
  import opened Errors
  import opened JavaInt

  datatype SystemConfiguration = SystemConfiguration(
    physicalMemorySize: int32,
    virtualMemorySize: int32,
    architecture: string,
    numberOfPages: int32,
    pageSize: int32,
    numberOfFrames: int32,
    swapSize: int32)

  /** validateInputs: the four checks, in the source's order. */
  function ValidateInputs(physical: int32, virtual: int32, architecture: string, pages: int32): (r: Outcome)
    ensures r == Pass <==>
      physical > 0 && virtual >= physical && architecture in {"x86", "x64"} && pages > 0
    ensures r != Pass ==> r == Fail(IllegalArgument)
  {
    if physical <= 0 then Fail(IllegalArgument)
    else if virtual < physical then Fail(IllegalArgument)
    else if architecture != "x86" && architecture != "x64" then Fail(IllegalArgument)
    else if pages <= 0 then Fail(IllegalArgument)
    else Pass
  }

  /** calculatePageSize: V / P, rejected when `size & (size - 1)` is non-zero.
      The bit test lets 0 through besides the powers of two. */
  function CalculatePageSize(virtual: int32, pages: int32): (r: Result<int32>)
    requires virtual >= 0 && pages > 0
    ensures r.Ok? <==> virtual / pages == 0 || IsPowerOfTwo(virtual / pages)
    ensures r.Ok? ==> r.value == virtual / pages
    ensures r.Err? ==> r.error == IllegalArgument
  {
    var size := virtual / pages;
    AndPredecessorZeroIff(size);
    if AndPredecessor(size) != 0 then Err(IllegalArgument) else Ok(size)
  }

  /** The constructor. With valid inputs and a page size that passes the bit
      test it stores numberOfFrames = M / pageSize and
      swapSize = (P - numberOfFrames) * pageSize; a page size of 0 makes the
      first of these divide by zero. */
  function Create(physical: int32, virtual: int32, architecture: string, pages: int32):
    (r: Result<SystemConfiguration>)
    ensures ValidateInputs(physical, virtual, architecture, pages) != Pass ==> r == Err(IllegalArgument)
    ensures ValidateInputs(physical, virtual, architecture, pages) == Pass ==>
      (r.Ok? <==> IsPowerOfTwo(virtual / pages)) &&
      (virtual / pages == 0 ==> r == Err(ArithmeticFailure)) &&
      (virtual / pages != 0 && !IsPowerOfTwo(virtual / pages) ==> r == Err(IllegalArgument))
    ensures r.Ok? ==>
      var c := r.value;
      c.physicalMemorySize == physical && c.virtualMemorySize == virtual &&
      c.architecture == architecture && c.numberOfPages == pages &&
      c.pageSize == virtual / pages && c.pageSize >= 1 &&
      c.numberOfFrames == physical / c.pageSize &&
      c.swapSize == (pages - c.numberOfFrames) * c.pageSize
  {
    match ValidateInputs(physical, virtual, architecture, pages)
    case Fail(e) => Err(e)
    case Pass =>
      match CalculatePageSize(virtual, pages)
      case Err(e) => Err(e)
      case Ok(pageSize) =>
        if pageSize == 0 then Err(ArithmeticFailure)
        else
          var frames := physical / pageSize;
          SwapSizeFits(physical, virtual, pages, pageSize, frames);
          Ok(SystemConfiguration(physical, virtual, architecture, pages, pageSize, frames,
                                 (pages - frames) * pageSize))
  }

  /** (P - F) * S cannot overflow an `int`: it lies between -M and V. */
  lemma SwapSizeFits(physical: int32, virtual: int32, pages: int32, pageSize: int, frames: int)
    requires physical > 0 && virtual >= physical && pages > 0
    requires pageSize == virtual / pages && pageSize >= 1 && frames == physical / pageSize
    ensures 0 <= frames <= physical
    ensures -physical <= (pages - frames) * pageSize <= virtual
  {
    QuotientTimesDivisor(virtual, pages);
    QuotientTimesDivisor(physical, pageSize);
    QuotientBound(physical, pageSize);
    Distribute(pages, frames, pageSize);
  }

  lemma QuotientTimesDivisor(a: nat, b: int)
    requires b >= 1
    ensures (a / b) * b <= a && b * (a / b) <= a
  {
    assert a == b * (a / b) + a % b;
  }

  lemma QuotientBound(a: nat, b: int)
    requires b >= 1
    ensures 0 <= a / b <= a
  {
    QuotientTimesDivisor(a, b);
    if a / b > a {
      MulMonotone(a / b, b);
    }
  }

  lemma MulMonotone(q: int, b: int)
    requires q >= 0 && b >= 1
    ensures q * b >= q
  {
    assert q * b == q + q * (b - 1);
  }

  lemma Distribute(p: int, f: int, s: int)
    ensures (p - f) * s == p * s - f * s
  {
  }

  /** When V is a multiple of P the configuration is consistent:
      no more frames than pages, and a non-negative swap size. */
  lemma DivisibleGivesNonNegativeSwap(physical: int32, virtual: int32, architecture: string, pages: int32)
    requires Create(physical, virtual, architecture, pages).Ok?
    requires virtual % pages == 0
    ensures Create(physical, virtual, architecture, pages).value.numberOfFrames <= pages
    ensures Create(physical, virtual, architecture, pages).value.swapSize >= 0
  {
    var c := Create(physical, virtual, architecture, pages).value;
    FramesAtMostPages(physical, virtual, pages, c.pageSize, c.numberOfFrames);
    NonNegativeProduct(pages - c.numberOfFrames, c.pageSize);
  }

  lemma FramesAtMostPages(physical: nat, virtual: nat, pages: int, s: int, frames: int)
    requires pages >= 1 && s >= 1 && physical <= virtual
    requires virtual % pages == 0 && s == virtual / pages && frames == physical / s
    ensures frames <= pages
  {
    assert virtual == pages * s by {
      assert virtual == pages * (virtual / pages) + virtual % pages;
    }
    QuotientTimesDivisor(physical, s);
    if frames > pages {
      MulStrict(pages, frames, s);
    }
  }

  lemma MulStrict(p: int, f: int, s: int)
    requires p < f && s >= 1
    ensures p * s < f * s
  {
    assert f * s - p * s == (f - p) * s;
    MulMonotone(f - p, s);
  }

  lemma NonNegativeProduct(a: int, b: int)
    requires a >= 0 && b >= 0
    ensures a * b >= 0
  {
  }

  /** Without divisibility the swap size can be negative. */
  lemma NegativeSwapExample()
    ensures Create(10, 10, "x86", 4) == Ok(SystemConfiguration(10, 10, "x86", 4, 2, 5, -2))
  {
    assert IsPowerOfTwo(2);
  }

  /** The generator's default configuration. */
  lemma DefaultConfigurationExample()
    ensures Create(4096, 16384, "x86", 16) == Ok(SystemConfiguration(4096, 16384, "x86", 16, 1024, 4, 12288))
  {
    assert IsPowerOfTwo(1024) by {
      assert IsPowerOfTwo(2) && IsPowerOfTwo(4) && IsPowerOfTwo(8) && IsPowerOfTwo(16);
      assert IsPowerOfTwo(32) && IsPowerOfTwo(64) && IsPowerOfTwo(128) && IsPowerOfTwo(256);
      assert IsPowerOfTwo(512);
    }
  }

  /** As written, a virtual memory smaller than the page count yields page size
      0, which passes the bit test, and the constructor then divides by zero. */
  lemma ZeroPageSizeDividesByZero()
    ensures CalculatePageSize(1, 2) == Ok(0)
    ensures Create(1, 1, "x86", 2) == Err(ArithmeticFailure)
  {
  }

  /** calculatePageSize as its own error message says it should behave: a page
      size that is not a power of two, 0 included, is rejected. */
  function CalculatePageSizeIntended(virtual: int32, pages: int32): (r: Result<int32>)
    requires virtual >= 0 && pages > 0
    ensures r.Ok? <==> IsPowerOfTwo(virtual / pages)
    ensures r.Ok? ==> r.value == virtual / pages && r.value >= 1
    ensures r.Err? ==> r.error == IllegalArgument
  {
    var size := virtual / pages;
    AndPredecessorZeroIff(size);
    if size <= 0 || AndPredecessor(size) != 0 then Err(IllegalArgument) else Ok(size)
  }

  /** The constructor built on the intended page-size check never divides by
      zero: every rejection is an illegal-argument error. */
  function CreateIntended(physical: int32, virtual: int32, architecture: string, pages: int32):
    (r: Result<SystemConfiguration>)
    ensures r.Err? ==> r.error == IllegalArgument
    ensures r.Ok? <==> ValidateInputs(physical, virtual, architecture, pages) == Pass && IsPowerOfTwo(virtual / pages)
    ensures r.Ok? ==> IsPowerOfTwo(r.value.pageSize) && r == Create(physical, virtual, architecture, pages)
  {
    match ValidateInputs(physical, virtual, architecture, pages)
    case Fail(e) => Err(e)
    case Pass =>
      match CalculatePageSizeIntended(virtual, pages)
      case Err(e) => Err(e)
      case Ok(pageSize) =>
        var frames := physical / pageSize;
        SwapSizeFits(physical, virtual, pages, pageSize, frames);
        Ok(SystemConfiguration(physical, virtual, architecture, pages, pageSize, frames,
                               (pages - frames) * pageSize))
  }
}
