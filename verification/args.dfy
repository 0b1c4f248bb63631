/** The command-line arguments and the validation of the `--port` value. */
module PortArgs {
  import opened Wrappers
  import opened Decimal
  import opened Settings

  /**
   * The options the configuration merge reads. The typst file and the config file path are
   * not modelled; `noDefaultDisabledRules` is the flag the merge consults.
   */
  datatype Args = Args(
    host: Option<string>,
    port: Option<U16>,
    language: Option<string>,
    disabledRules: Option<seq<string>>,
    disabledCategories: Option<seq<string>>,
    ignoreWords: Option<seq<string>>,
    picky: Option<bool>,
    noDefaultDisabledRules: Option<bool>)

  const PortRangeStart: nat := 1
  const PortRangeEnd: nat := 65535

  /** The largest `usize` on a 64-bit target. */
  const UsizeMax: nat := 0xFFFF_FFFF_FFFF_FFFF

  /**
   * `str::parse::<usize>()`: an optional `+`, then one or more ASCII digits, whose value must
   * fit in a `usize`.
   */
  function ParseUsize(s: string): (r: Option<nat>)
    ensures r.Some? ==> r.value <= UsizeMax
  {
    var digits := if |s| > 0 && s[0] == '+' then s[1..] else s;
    if digits == [] || !AllDigits(digits) then None
    else
      var value := DigitsValue(digits);
      if value <= UsizeMax then Some(value) else None
  }

  function NotAPortNumber(s: string): string {
    "`" + s + "` isn't a port number"
  }

  function NotInRange(): string {
    "port not in range " + NatToString(PortRangeStart) + "-" + NatToString(PortRangeEnd)
  }

  /** `port_in_range`: parse, then accept exactly the values in 1..=65535. */
  function PortInRange(s: string): (r: Result<U16, string>)
    ensures r.Success? <==> ParseUsize(s).Some? && PortRangeStart <= ParseUsize(s).value <= PortRangeEnd
    ensures r.Success? ==> r.value >= 1 && r.value == ParseUsize(s).value
    ensures r.Failure? ==> r.error == (if ParseUsize(s).None? then NotAPortNumber(s) else NotInRange())
  {
    match ParseUsize(s)
    case None => Failure(NotAPortNumber(s))
    case Some(port) =>
      if PortRangeStart <= port <= PortRangeEnd then Success(port) else Failure(NotInRange())
  }

  /** The decimal rendering of a number that fits in a `usize` parses back to it. */
  lemma ParseRendering(n: nat)
    requires n <= UsizeMax
    ensures ParseUsize(NatToString(n)) == Some(n)
    ensures ParseUsize("+" + NatToString(n)) == Some(n)
  {
    DigitsValueOfNatToString(n);
    assert ("+" + NatToString(n))[1..] == NatToString(n);
  }

  /** Every port is accepted as written, with or without a leading `+`. */
  lemma PortRoundTrip(port: nat)
    requires 1 <= port <= 65535
    ensures PortInRange(NatToString(port)) == Success(port)
    ensures PortInRange("+" + NatToString(port)) == Success(port)
  {
    ParseRendering(port);
  }

  /** `0` parses but is out of range. */
  lemma ZeroRejected()
    ensures PortInRange("0") == Failure(NotInRange())
    ensures NotInRange() == "port not in range 1-65535"
  {
    assert NatToString(0) == "0";
    ParseRendering(0);
    assert NatToString(65535) == "65535" by {
      assert NatToString(6) == "6";
      assert NatToString(65) == "65";
      assert NatToString(655) == "655";
      assert NatToString(6553) == "6553";
    }
  }

  /** A number above 65535 that still fits in a `usize` gets the range error, not the parse error. */
  lemma LargeRejected(n: nat)
    requires PortRangeEnd < n <= UsizeMax
    ensures PortInRange(NatToString(n)) == Failure(NotInRange())
  {
    ParseRendering(n);
  }

  /** A character that is neither a digit nor a leading `+` makes it "not a port number". */
  lemma NonNumericRejected(s: string, i: nat)
    requires i < |s| && !IsDigit(s[i]) && !(i == 0 && s[i] == '+')
    ensures PortInRange(s) == Failure(NotAPortNumber(s))
  {
    if |s| > 0 && s[0] == '+' {
      assert s[1..][i - 1] == s[i];
    }
  }

  /** The empty string is not a port number. */
  lemma EmptyRejected()
    ensures PortInRange("") == Failure(NotAPortNumber(""))
  {
  }
}
