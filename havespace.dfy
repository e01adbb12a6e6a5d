/**
  The ManageSieve HAVESPACE command (section 2.5 of RFC 5804): given a script
  name and a size, say whether storing that script would fit in the account's
  quota. The handler reads two positional tokens, parses the size as a usize,
  runs the name validator, and then compares size plus used quota with the
  account's quota, a quota of 0 meaning "unlimited". It writes nothing.

  The name validator and the used-quota query are storage calls outside this
  model: the validator is a function parameter, and the used quota a value
  that is either a number of bytes or the storage error it failed with.
 */
module HaveSpace {
  import opened Wrappers
  import opened Decimal

  const TWO_63: int := 0x8000_0000_0000_0000
  const TWO_64: int := 0x1_0000_0000_0000_0000

  type u64 = x: int | 0 <= x < TWO_64
  type i64 = x: int | -TWO_63 <= x < TWO_63

  /** A request token: the tokenizer's string arguments, or anything else. */
  datatype Token = Str(text: string) | NonString

  /** The response codes of section 1.3 of RFC 5804. */
  datatype ResponseCode =
    | AuthTooWeak | EncryptNeeded | Quota | QuotaMaxScripts | QuotaMaxSize
    | Referral | Sasl | TransitionNeeded | TryLater | Active | NonExistent
    | AlreadyExists | Tag | Warnings

  /** A failed command: its human-readable details and an optional response code. */
  datatype Error = Error(details: string, code: Option<ResponseCode>)

  /** The status the handler answers with. */
  datatype Response = Ok(message: string) | Err(error: Error)

  /** What the name validator decided about a script name. */
  datatype NameCheck = ValidName | InvalidName(error: Error)

  /** The two parsed parameters. */
  datatype Args = Args(name: string, size: usize)

  const MissingName := Error("Expected script name as a parameter.", None)
  const MissingSize := Error("Expected script size as a parameter.", None)
  const InvalidSize := Error("Invalid size parameter.", None)
  const QuotaExceeded := Error("Quota exceeded.", Some(QuotaMaxSize))

  /** Rust's `as i64` on an integer: the value in [-2^63, 2^63) congruent to `x` modulo 2^64. */
  function WrapI64(x: int): (r: i64)
    ensures r % TWO_64 == x % TWO_64
    ensures -TWO_63 <= x < TWO_63 ==> r == x
  {
    var m := x % TWO_64;
    if m < TWO_63 then m else m - TWO_64
  }

  /** The first two tokens as a script name and a size, or the error for the first that is wrong. */
  function ParseArgs(tokens: seq<Token>): (r: Result<Args, Error>)
    ensures r == Failure(MissingName) <==> (|tokens| == 0 || !tokens[0].Str?)
    ensures r == Failure(MissingSize) <==>
      (|tokens| >= 1 && tokens[0].Str? && (|tokens| < 2 || !tokens[1].Str?))
    ensures r == Failure(InvalidSize) <==>
      (|tokens| >= 2 && tokens[0].Str? && tokens[1].Str? && ParseUsize(tokens[1].text).None?)
    ensures r.Success? <==>
      (|tokens| >= 2 && tokens[0].Str? && tokens[1].Str? && ParseUsize(tokens[1].text).Some?)
    ensures r.Success? ==>
      |tokens| >= 2 && tokens[0].Str? && tokens[1].Str? &&
      r.value.name == tokens[0].text && ParseUsize(tokens[1].text) == Some(r.value.size)
  {
    if |tokens| == 0 || !tokens[0].Str? then Failure(MissingName)
    else if |tokens| < 2 || !tokens[1].Str? then Failure(MissingSize)
    else match ParseUsize(tokens[1].text)
      case None => Failure(InvalidSize)
      case Some(size) => Success(Args(tokens[0].text, size))
  }

  /** The quota comparison as the handler writes it: `size as i64 + used <= quota as i64`, in wrapping i64 arithmetic. */
  function FitsWrapping(size: usize, used: i64, quota: u64): (fits: bool)
    ensures size < TWO_63 && -TWO_63 <= size + used < TWO_63 && quota < TWO_63 ==>
              (fits <==> FitsExact(size, used, quota))
  {
    WrapI64(WrapI64(size) + used) <= WrapI64(quota)
  }

  /** The quota comparison the handler is meant to make, on unbounded integers. */
  function FitsExact(size: usize, used: i64, quota: u64): bool {
    size + used <= quota
  }

  /**
    The four steps of the handler, with the final comparison as a parameter:
    parse both tokens, validate the name, then decide on quota. `usedQuota` is
    consulted only when the quota is not 0.
   */
  function Evaluate(tokens: seq<Token>, quota: u64, validateName: string -> NameCheck,
                    usedQuota: Result<i64, Error>, fits: (usize, i64, u64) -> bool): (r: Response)
    ensures r.Ok? ==> r.message == ""
  {
    match ParseArgs(tokens)
    case Failure(e) => Err(e)
    case Success(args) =>
      match validateName(args.name)
      case InvalidName(e) => Err(e)
      case ValidName =>
        if quota == 0 then Ok("")
        else match usedQuota
          case Failure(e) => Err(e)
          case Success(used) => if fits(args.size, used, quota) then Ok("") else Err(QuotaExceeded)
  }

  /** `Session::handle_havespace`, as written. */
  function HandleHaveSpace(tokens: seq<Token>, quota: u64, validateName: string -> NameCheck,
                           usedQuota: Result<i64, Error>): (r: Response)
    ensures r.Ok? ==> r == Ok("")
    ensures r.Ok? ==> ParseArgs(tokens).Success? && validateName(tokens[0].text).ValidName?
    ensures r.Ok? && quota != 0 ==> usedQuota.Success?
  {
    Evaluate(tokens, quota, validateName, usedQuota, FitsWrapping)
  }

  /** The handler with the comparison done without wrap-around (see the findings). */
  function HandleHaveSpaceChecked(tokens: seq<Token>, quota: u64, validateName: string -> NameCheck,
                                  usedQuota: Result<i64, Error>): (r: Response)
    ensures r.Ok? ==> r == Ok("")
  {
    Evaluate(tokens, quota, validateName, usedQuota, FitsExact)
  }

  /** A missing or non-string first token is reported as such, whatever follows. */
  lemma MissingNameFirst(tokens: seq<Token>, quota: u64, validateName: string -> NameCheck,
                         usedQuota: Result<i64, Error>)
    requires |tokens| == 0 || !tokens[0].Str?
    ensures HandleHaveSpace(tokens, quota, validateName, usedQuota) == Err(MissingName)
  {
  }

  /** With a name present, a missing or non-string second token is reported as a missing size. */
  lemma MissingSizeSecond(tokens: seq<Token>, quota: u64, validateName: string -> NameCheck,
                          usedQuota: Result<i64, Error>)
    requires |tokens| >= 1 && tokens[0].Str?
    requires |tokens| < 2 || !tokens[1].Str?
    ensures HandleHaveSpace(tokens, quota, validateName, usedQuota) == Err(MissingSize)
  {
  }

  /** A size string that is not a usize gets its own error, distinct from a missing size. */
  lemma InvalidSizeReported(tokens: seq<Token>, quota: u64, validateName: string -> NameCheck,
                            usedQuota: Result<i64, Error>)
    requires |tokens| >= 2 && tokens[0].Str? && tokens[1].Str?
    requires ParseUsize(tokens[1].text).None?
    ensures HandleHaveSpace(tokens, quota, validateName, usedQuota) == Err(InvalidSize)
    ensures InvalidSize != MissingSize && InvalidSize != MissingName
  {
  }

  /**
    A parse error is decided before the validator or the quota is looked at:
    two calls that differ in everything but the tokens answer alike.
   */
  lemma ParseErrorBeforeValidation(tokens: seq<Token>,
                                   quota1: u64, validate1: string -> NameCheck, used1: Result<i64, Error>,
                                   quota2: u64, validate2: string -> NameCheck, used2: Result<i64, Error>)
    requires ParseArgs(tokens).Failure?
    ensures HandleHaveSpace(tokens, quota1, validate1, used1) == HandleHaveSpace(tokens, quota2, validate2, used2)
    ensures HandleHaveSpace(tokens, quota1, validate1, used1).Err?
  {
  }

  /** A rejected name is answered with the validator's own error, never with the quota error. */
  lemma InvalidNamePropagates(tokens: seq<Token>, quota: u64, validateName: string -> NameCheck,
                              usedQuota: Result<i64, Error>, e: Error)
    requires ParseArgs(tokens).Success?
    requires validateName(ParseArgs(tokens).value.name) == InvalidName(e)
    ensures HandleHaveSpace(tokens, quota, validateName, usedQuota) == Err(e)
  {
  }

  /** Quota 0 means unlimited: any parsed size with a valid name fits, and the used quota is not consulted. */
  lemma UnlimitedQuota(tokens: seq<Token>, validateName: string -> NameCheck,
                       used1: Result<i64, Error>, used2: Result<i64, Error>)
    requires ParseArgs(tokens).Success?
    requires validateName(ParseArgs(tokens).value.name).ValidName?
    ensures HandleHaveSpace(tokens, 0, validateName, used1) == Ok("")
    ensures HandleHaveSpace(tokens, 0, validateName, used1) == HandleHaveSpace(tokens, 0, validateName, used2)
  {
  }

  /** A failed used-quota query is passed on as an error; it is never read as "fits". */
  lemma UsedQuotaFailurePropagates(tokens: seq<Token>, quota: u64, validateName: string -> NameCheck, e: Error)
    requires ParseArgs(tokens).Success?
    requires validateName(ParseArgs(tokens).value.name).ValidName?
    requires quota != 0
    ensures HandleHaveSpace(tokens, quota, validateName, Failure(e)) == Err(e)
  {
  }

  /**
    With a quota set and the used quota known, the answer is Ok("") exactly when
    the i64 comparison holds, and otherwise "Quota exceeded." with QUOTA/MAXSIZE.
   */
  lemma QuotaDecision(tokens: seq<Token>, quota: u64, validateName: string -> NameCheck, used: i64)
    requires ParseArgs(tokens).Success?
    requires validateName(ParseArgs(tokens).value.name).ValidName?
    requires quota != 0
    ensures var size := ParseArgs(tokens).value.size;
            var r := HandleHaveSpace(tokens, quota, validateName, Success(used));
            (r == Ok("") <==> WrapI64(WrapI64(size) + used) <= WrapI64(quota)) &&
            (r != Ok("") <==> r == Err(QuotaExceeded))
  {
  }

  /**
    When no value leaves the i64 range, the comparison is the plain one:
    the script fits exactly when size + used <= quota.
   */
  lemma QuotaDecisionInRange(tokens: seq<Token>, quota: u64, validateName: string -> NameCheck, used: i64)
    requires ParseArgs(tokens).Success?
    requires validateName(ParseArgs(tokens).value.name).ValidName?
    requires quota != 0 && quota < TWO_63
    requires ParseArgs(tokens).value.size + used < TWO_63 && ParseArgs(tokens).value.size < TWO_63
    ensures var size := ParseArgs(tokens).value.size;
            HandleHaveSpace(tokens, quota, validateName, Success(used)) ==
              (if size + used <= quota then Ok("") else Err(QuotaExceeded))
  {
  }

  /** Tokens after the second are never read. */
  lemma ExtraTokensIgnored(tokens: seq<Token>, extra: seq<Token>, quota: u64,
                           validateName: string -> NameCheck, usedQuota: Result<i64, Error>)
    requires |tokens| == 2
    ensures HandleHaveSpace(tokens + extra, quota, validateName, usedQuota) ==
            HandleHaveSpace(tokens, quota, validateName, usedQuota)
  {
    assert (tokens + extra)[0] == tokens[0] && (tokens + extra)[1] == tokens[1];
  }

  /**
    Finding, as written: a size above i64::MAX becomes negative under `as i64`,
    so usize::MAX "fits" in a quota of 1000 bytes with nothing used; the
    corrected handler answers QUOTA/MAXSIZE.
   */
  lemma OversizedRequestPasses()
    ensures var tokens := [Str("script"), Str(ToDecimal(USIZE_MAX))];
            var accept := (name: string) => ValidName;
            HandleHaveSpace(tokens, 1000, accept, Success(0)) == Ok("") &&
            HandleHaveSpaceChecked(tokens, 1000, accept, Success(0)) == Err(QuotaExceeded)
  {
    ParseUsizeCanonical(USIZE_MAX);
    assert WrapI64(USIZE_MAX) == -1;
  }

  /** Corrected: with a quota set, the script fits exactly when size + used <= quota, for every size. */
  lemma CheckedQuotaDecision(tokens: seq<Token>, quota: u64, validateName: string -> NameCheck, used: i64)
    requires ParseArgs(tokens).Success?
    requires validateName(ParseArgs(tokens).value.name).ValidName?
    requires quota != 0
    ensures var size := ParseArgs(tokens).value.size;
            HandleHaveSpaceChecked(tokens, quota, validateName, Success(used)) ==
              (if size + used <= quota then Ok("") else Err(QuotaExceeded))
  {
  }

  /** The corrected handler answers as the handler as written wherever its arithmetic does not wrap. */
  lemma CheckedAgreesWithoutWrap(tokens: seq<Token>, quota: u64, validateName: string -> NameCheck,
                                 usedQuota: Result<i64, Error>)
    requires quota < TWO_63
    requires ParseArgs(tokens).Success? && usedQuota.Success? ==>
               ParseArgs(tokens).value.size < TWO_63 &&
               -TWO_63 <= ParseArgs(tokens).value.size + usedQuota.value < TWO_63
    ensures HandleHaveSpaceChecked(tokens, quota, validateName, usedQuota) ==
            HandleHaveSpace(tokens, quota, validateName, usedQuota)
  {
  }
}
