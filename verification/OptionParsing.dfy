/** The option parser of Tools/wgetopt.h.  Words are ASCII, so the character result -1 is
    never a letter. */
module OptionParsing {
  import opened Options
  import opened Sequences

  /** The result of one call: -1, a letter found in the option string, or `'\0'` for a word
      that is not an option. */
  datatype Outcome = End | Letter(c: char) | Word

  datatype Call = Call(outcome: Outcome, argument: Option<string>, optind: nat)

  predicate TakesArgument(c: char, options: string) {
    var i := IndexOf(options, c);
    i != -1 && i + 1 < |options| && options[i + 1] == ':'
  }

  predicate IsOption(word: string, options: string) {
    |word| == 2 && word[0] == '-' && word[1] in options
  }

  /** One call of `getopt` with `optind` past the program's name. */
  function Next(argv: seq<string>, options: string, optind: nat): Call {
    if optind >= |argv| then Call(End, None, optind)
    else
      var word := argv[optind];
      if !IsOption(word, options) then Call(Word, None, optind + 1)
      else if !TakesArgument(word[1], options) then Call(Letter(word[1]), None, optind + 1)
      else if optind < |argv| - 1 then Call(Letter(word[1]), Some(argv[optind + 1]), optind + 2)
      else Call(End, None, optind)
  }

  class Parser {
    var optarg: Option<string>
    var optind: nat

    /** A static of the C file starts out as zero. */
    constructor ()
      ensures optind == 0 && optarg == None
    {
      optind, optarg := 0, None;
    }

    /** `indexof` */
    method IndexOf(c: char, s: string) returns (index: int)
      ensures index == Sequences.IndexOf(s, c)
    {
      for i := 0 to |s|
        invariant c !in s[..i]
      {
        if s[i] == c {
          return i;
        }
      }
      return -1;
    }

    /** `getopt`.  The loop of the source always leaves in its first turn. */
    method GetOpt(argv: seq<string>, options: string) returns (outcome: Outcome)
      modifies this
      ensures Call(outcome, optarg, optind) == Next(argv, options, if old(optind) == 0 then 1 else old(optind))
    {
      optarg := None;
      if optind == 0 {
        optind := 1;
      }
      if optind < |argv| {
        var arg := argv[optind];
        outcome := Word;
        if |arg| == 2 {
          if arg[0] == '-' {
            var index := IndexOf(arg[1], options);
            if index != -1 {
              outcome := Letter(arg[1]);
              if index < |options| - 1 && options[index + 1] == ':' {
                if optind < |argv| - 1 {
                  optind := optind + 1;
                  optarg := Some(argv[optind]);
                } else {
                  return End;
                }
              }
            }
          }
        }
        optind := optind + 1;
        return;
      }
      return End;
    }
  }

  // ---- runs

  /** The calls from `optind` up to the first -1. */
  function Run(argv: seq<string>, options: string, optind: nat): seq<Call>
    decreases |argv| - optind
  {
    var call := Next(argv, options, optind);
    if call.outcome.End? then [] else [call] + Run(argv, options, call.optind)
  }

  /** Where a run that starts at `optind` stops. */
  function Stop(argv: seq<string>, options: string, optind: nat): nat
    decreases |argv| - optind
  {
    var call := Next(argv, options, optind);
    if call.outcome.End? then optind else Stop(argv, options, call.optind)
  }

  function Concat(parts: seq<seq<string>>): seq<string> {
    if parts == [] then [] else parts[0] + Concat(parts[1..])
  }

  /** The words each call of a run consumed. */
  function Consumed(argv: seq<string>, calls: seq<Call>, optind: nat): seq<seq<string>>
    requires optind <= |argv|
  {
    if calls == [] || !(optind <= calls[0].optind <= |argv|) then []
    else [argv[optind..calls[0].optind]] + Consumed(argv, calls[1..], calls[0].optind)
  }

  ghost predicate MissesArgument(argv: seq<string>, options: string, i: nat) {
    i + 1 == |argv| && IsOption(argv[i], options) && TakesArgument(argv[i][1], options)
  }

  /** `i` is the place of the letter in the option string that counts, the first one. */
  predicate FirstPlace(options: string, c: char, i: nat) {
    i < |options| && options[i] == c && forall j | 0 <= j < i :: options[j] != c
  }

  /** One call, spelled out: a dash and a letter of the option string is an option, which takes
      the next word when a colon follows the letter there, and is refused when there is none. */
  lemma OptionCall(argv: seq<string>, options: string, optind: nat, c: char, i: nat)
    requires optind < |argv| && argv[optind] == ['-', c] && FirstPlace(options, c, i)
    ensures var call, takes := Next(argv, options, optind), i + 1 < |options| && options[i + 1] == ':';
            && (!takes ==> call == Call(Letter(c), None, optind + 1))
            && (takes && optind + 1 < |argv| ==> call == Call(Letter(c), Some(argv[optind + 1]), optind + 2))
            && (takes && optind + 1 == |argv| ==> call == Call(End, None, optind))
  {
    FirstIsIndex(options, c, i);
  }

  lemma FirstIsIndex(options: string, c: char, i: nat)
    requires FirstPlace(options, c, i)
    ensures IndexOf(options, c) == i && c in options
  {}

  /** Any other word comes back as it is. */
  lemma OtherCall(argv: seq<string>, options: string, optind: nat)
    requires optind < |argv|
    requires |argv[optind]| != 2 || argv[optind][0] != '-' || argv[optind][1] !in options
    ensures Next(argv, options, optind) == Call(Word, None, optind + 1)
  {}

  /** A last option without the argument that a colon asks for. */
  ghost predicate LacksArgument(argv: seq<string>, options: string, i: nat) {
    i + 1 == |argv| && |argv[i]| == 2 && argv[i][0] == '-'
      && exists k: nat :: FirstPlace(options, argv[i][1], k) && k + 1 < |options| && options[k + 1] == ':'
  }

  /** A call gives -1 exactly at the end and for a missing argument. */
  lemma EndsExactly(argv: seq<string>, options: string, optind: nat)
    ensures Next(argv, options, optind).outcome.End? <==> optind >= |argv| || LacksArgument(argv, options, optind)
    ensures LacksArgument(argv, options, optind) ==> MissesArgument(argv, options, optind)
  {
    if optind < |argv| && |argv[optind]| == 2 && argv[optind][0] == '-' {
      var c := argv[optind][1];
      if c in options {
        var i := IndexOf(options, c);
        assert FirstPlace(options, c, i) by {
          forall j | 0 <= j < i ensures options[j] != c {
            assert options[j] in options[..i];
          }
        }
        assert argv[optind] == ['-', c];
        OptionCall(argv, options, optind, c, i);
      }
      forall k: nat | FirstPlace(options, c, k) ensures IndexOf(options, c) == k && c in options {
        FirstIsIndex(options, c, k);
      }
    }
  }

  /** Conservation: a run never skips or repeats a word.  The words its calls consume, one
      each, or two exactly when there is an argument, make up the words up to where it
      stops, which is the first place at the end or at a last option whose argument is missing. */
  lemma {:induction false} RunConserves(argv: seq<string>, options: string, optind: nat)
    requires optind <= |argv|
    ensures var calls, stop := Run(argv, options, optind), Stop(argv, options, optind);
            && optind <= stop <= |argv|
            && Concat(Consumed(argv, calls, optind)) == argv[optind..stop]
            && |Consumed(argv, calls, optind)| == |calls|
            && (stop == |argv| || MissesArgument(argv, options, stop))
            && (calls == [] <==> optind == |argv| || LacksArgument(argv, options, optind))
            && (forall i | 0 <= i < |calls| ::
                  i == |calls| - 1 <==> calls[i].optind == |argv| || LacksArgument(argv, options, calls[i].optind))
            && (forall i :: 0 <= i < |calls| ==>
                  |Consumed(argv, calls, optind)[i]| == if calls[i].argument.Some? then 2 else 1)
    decreases |argv| - optind
  {
    hide LacksArgument;
    var call := Next(argv, options, optind);
    EndsExactly(argv, options, optind);
    if !call.outcome.End? {
      RunConserves(argv, options, call.optind);
      var stop := Stop(argv, options, optind);
      assert argv[optind..stop] == argv[optind..call.optind] + argv[call.optind..stop];
      var calls := Run(argv, options, optind);
      assert calls[1..] == Run(argv, options, call.optind);
    }
  }

  /** -1 comes back on every later call. */
  lemma StopRepeats(argv: seq<string>, options: string, optind: nat)
    ensures Next(argv, options, Stop(argv, options, optind)) == Call(End, None, Stop(argv, options, optind))
    decreases |argv| - optind
  {
    var call := Next(argv, options, optind);
    if !call.outcome.End? {
      StopRepeats(argv, options, call.optind);
    }
  }

  // ---- printing options and parsing them back

  datatype Setting = Setting(c: char, argument: Option<string>)

  predicate Printable(settings: seq<Setting>, options: string) {
    forall s <- settings :: s.c in options && (s.argument.Some? <==> TakesArgument(s.c, options))
  }

  function Words(s: Setting): seq<string> {
    [['-', s.c]] + if s.argument.Some? then [s.argument.value] else []
  }

  function Print(settings: seq<Setting>): seq<string> {
    if settings == [] then [] else Words(settings[0]) + Print(settings[1..])
  }

  function Settings(calls: seq<Call>): seq<Setting> {
    if calls == [] then []
    else
      var outcome := calls[0].outcome;
      (if outcome.Letter? then [Setting(outcome.c, calls[0].argument)] else []) + Settings(calls[1..])
  }

  /** Printing settings after anything and parsing from there gives them back, and uses up
      every word. */
  lemma {:induction false} ParsePrinted(before: seq<string>, settings: seq<Setting>, options: string)
    requires Printable(settings, options)
    ensures var argv := before + Print(settings);
            && Settings(Run(argv, options, |before|)) == settings
            && |Run(argv, options, |before|)| == |settings|
            && Stop(argv, options, |before|) == |argv|
    decreases |settings|
  {
    var argv := before + Print(settings);
    if settings == [] {
      assert argv == before;
    } else {
      var s := settings[0];
      var more := before + Words(s);
      assert argv == more + Print(settings[1..]);
      assert argv[|before|] == Words(s)[0] && Words(s)[0] == ['-', s.c];
      var call := Next(argv, options, |before|);
      if s.argument.Some? {
        assert argv[|before| + 1] == Words(s)[1];
      }
      assert call == Call(Letter(s.c), s.argument, |more|);
      ParsePrinted(more, settings[1..], options);
      assert Run(argv, options, |before|)[1..] == Run(argv, options, |more|);
    }
  }

  predicate AllLetters(calls: seq<Call>) {
    forall c <- calls :: c.outcome.Letter?
  }

  /** Conversely, a run without stray words prints back as the words it consumed. */
  lemma {:induction false} PrintParsed(argv: seq<string>, options: string, optind: nat)
    requires optind <= |argv| && AllLetters(Run(argv, options, optind))
    ensures Printable(Settings(Run(argv, options, optind)), options)
    ensures optind <= Stop(argv, options, optind) <= |argv|
    ensures Print(Settings(Run(argv, options, optind))) == argv[optind..Stop(argv, options, optind)]
    decreases |argv| - optind
  {
    hide Words;
    hide TakesArgument;
    var call := Next(argv, options, optind);
    if !call.outcome.End? {
      var calls, rest := Run(argv, options, optind), Run(argv, options, call.optind);
      assert calls == [call] + rest && call in calls;
      assert forall c <- rest :: c in calls;
      LetterPrints(argv, options, optind);
      hide Next;
      hide Run;
      PrintParsed(argv, options, call.optind);
      var stop := Stop(argv, options, call.optind);
      hide Stop;
      SettingsPrint(call, rest);
      hide Print;
      hide Settings;
      assert argv[optind..stop] == argv[optind..call.optind] + argv[call.optind..stop];
    }
  }

  lemma LetterPrints(argv: seq<string>, options: string, optind: nat)
    requires optind <= |argv| && Next(argv, options, optind).outcome.Letter?
    ensures var call := Next(argv, options, optind); var s := Setting(call.outcome.c, call.argument);
            && optind < call.optind <= |argv| && argv[optind..call.optind] == Words(s)
            && s.c in options && (s.argument.Some? <==> TakesArgument(s.c, options))
  {
    var call := Next(argv, options, optind);
    assert argv[optind] == ['-', call.outcome.c];
  }

  lemma SettingsPrint(call: Call, rest: seq<Call>)
    requires call.outcome.Letter?
    ensures var s := Setting(call.outcome.c, call.argument);
            && Settings([call] + rest) == [s] + Settings(rest)
            && Print(Settings([call] + rest)) == Words(s) + Print(Settings(rest))
  {
    assert ([call] + rest)[1..] == rest;
    var s := Setting(call.outcome.c, call.argument);
    assert ([s] + Settings(rest))[1..] == Settings(rest);
  }
}
