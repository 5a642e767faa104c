/** The command-line front end of the CI/CD runner: the argument list becomes
    an action to run now, an action to run after a delay, or an error. */
module Cicd {
  import opened Wrappers
  import Decimal

  datatype Action = Run(command: string) | Schedule(command: string, delaySeconds: nat)

  const Usage: string := "Usage: <command> [--schedule <seconds_from_now>]"
  const InvalidDelay: string := "Invalid delay format. Must be an integer."

  /** Largest value plus one of Rust's `u64`. */
  const U64Limit: nat := 0x1_0000_0000_0000_0000

  /** Rust's `u64::from_str`: an optional `+`, then one or more ASCII digits
      whose value fits in 64 bits.  A `-` sign is rejected, as is a lone `+`. */
  function ParseU64(s: string): (r: Option<nat>)
    ensures r.Some? ==> r.value < U64Limit
    ensures |s| == 0 ==> r.None?
    ensures Decimal.AllDigits(s) && |s| > 0 ==>
              r == (if Decimal.Value(s) < U64Limit then Some(Decimal.Value(s)) else None)
    ensures var d := if |s| > 0 && s[0] == '+' then s[1..] else s;
            && (r.Some? <==> |d| > 0 && Decimal.AllDigits(d) && Decimal.Value(d) < U64Limit)
            && (r.Some? ==> r.value == Decimal.Value(d))
  {
    var digits := if |s| > 0 && s[0] == '+' then s[1..] else s;
    if |digits| == 0 || !Decimal.AllDigits(digits) then None
    else if Decimal.Value(digits) < U64Limit then Some(Decimal.Value(digits))
    else None
  }

  /** A leading `+` before digits is accepted and ignored, a second `+` is
      not, and a leading `-` is rejected. */
  lemma SignedDigits(d: string)
    ensures Decimal.AllDigits(d) ==> ParseU64("+" + d) == ParseU64(d)
    ensures ParseU64("++" + d).None?
    ensures ParseU64("-" + d).None?
  {
    assert ("+" + d)[1..] == d;
    assert !Decimal.IsDigit(('-' as char));
    assert ("-" + d)[0] == '-';
    assert ("++" + d)[1..][0] == '+';
  }

  /** The action the arguments ask for.  `args[0]` is the program name. */
  function FromArgs(args: seq<string>): (r: Result<Action, string>)
    ensures |args| < 2 <==> r == Err(Usage)
    ensures r.Ok? ==> r.value.command == args[1]
    ensures r.Err? ==> r.error == Usage || r.error == InvalidDelay
  {
    if |args| < 2 then Err(Usage)
    else
      var command := args[1];
      if |args| == 4 && args[2] == "--schedule" then
        match ParseU64(args[3]) {
          case Some(delay) => Ok(Schedule(command, delay))
          case None => Err(InvalidDelay)
        }
      else Ok(Run(command))
  }

  // ---------------------------------------------------------------------------
  // Properties
  // ---------------------------------------------------------------------------

  /** A schedule comes from exactly four arguments with `--schedule` in third
      place and a delay that parses; a bad delay is the delay error. */
  lemma ScheduleShape(args: seq<string>)
    ensures FromArgs(args).Ok? && FromArgs(args).value.Schedule? <==>
              |args| == 4 && args[2] == "--schedule" && ParseU64(args[3]).Some?
    ensures FromArgs(args) == Err(InvalidDelay) <==>
              |args| == 4 && args[2] == "--schedule" && ParseU64(args[3]).None?
    ensures FromArgs(args).Ok? && FromArgs(args).value.Schedule? ==>
              FromArgs(args).value.delaySeconds == ParseU64(args[3]).value
  {
  }

  /** Every other shape with a command runs it at once and ignores the rest. */
  lemma RunShape(args: seq<string>)
    requires |args| >= 2
    requires !(|args| == 4 && args[2] == "--schedule")
    ensures FromArgs(args) == Ok(Run(args[1]))
  {
  }

  /** A delay written by `Display` is read back, as long as it fits in 64 bits;
      one that does not fit is an error. */
  lemma ScheduleRoundTrip(program: string, command: string, delay: nat)
    ensures delay < U64Limit ==>
              FromArgs([program, command, "--schedule", Decimal.Show(delay)]) == Ok(Schedule(command, delay))
    ensures delay >= U64Limit ==>
              FromArgs([program, command, "--schedule", Decimal.Show(delay)]) == Err(InvalidDelay)
  {
    Decimal.ValueShow(delay);
  }

  /** A leading `+` is accepted and a leading `-` is not. */
  lemma SignExamples()
    ensures ParseU64("+42") == Some(42)
    ensures ParseU64("-42") == None
    ensures ParseU64("+") == None
  {
    assert "+42"[1..] == "42";
    assert "42"[..1] == "4" && "4"[..0] == "";
    assert !Decimal.IsDigit("-42"[0]);
  }
}
