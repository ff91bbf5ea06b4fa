/**
 The command-line decisions of the generator script: the boolean-flag
 validator and parser, and the choice of (length, special characters) from
 the argument vector.

 Python's `int()` parsing, which `validar_enteros` wraps, is a parameter
 `parseInt`: `None` where `int(arg)` raises, the parsed value otherwise.
 */
module Arguments {
  import opened Options

  /** `validar_booleanos`: the argument is one of the two flag spellings. */
  function IsBooleanArg(arg: string): (b: bool)
    ensures b <==> arg == "0" || arg == "1"
  {
    arg in ["0", "1"]
  }

  /** `generar_booleano`: a flag spelling to its boolean, anything else to `None`. */
  function ParseBoolean(arg: string): (r: Option<bool>)
    ensures r.Some? <==> IsBooleanArg(arg)
    ensures r == Some(true) <==> arg == "1"
    ensures r == Some(false) <==> arg == "0"
  {
    if IsBooleanArg(arg) then Some(arg == "1") else None
  }

  /** The spelling of a flag on the command line. */
  function ShowBoolean(b: bool): string
  {
    if b then "1" else "0"
  }

  /** Parsing is inverse to spelling, in both directions. */
  lemma ParseShowRoundTrip(b: bool, arg: string)
    ensures ParseBoolean(ShowBoolean(b)) == Some(b)
    ensures ParseBoolean(arg) == Some(b) ==> ShowBoolean(b) == arg
  {
  }

  /** The generator's parameters: password length and whether special characters are drawn. */
  datatype Settings = Settings(length: int, special: bool)

  const Defaults := Settings(16, true)

  /**
   The argument handling of the script's `main`. `argv` includes the program
   name, so one user argument means `|argv| == 2`.
   */
  function SelectSettings(argv: seq<string>, parseInt: string -> Option<int>): (r: Settings)
    // One argument: only the length may change, and only when it parses.
    ensures |argv| == 2 ==> r.special && r.length == (if parseInt(argv[1]).Some? then parseInt(argv[1]).value else 16)
    // Two arguments: both change together, and only when both validate.
    ensures |argv| == 3 && parseInt(argv[1]).Some? && IsBooleanArg(argv[2]) ==>
      r == Settings(parseInt(argv[1]).value, argv[2] == "1")
    ensures |argv| == 3 && !(parseInt(argv[1]).Some? && IsBooleanArg(argv[2])) ==> r == Defaults
    // Any other count keeps the defaults.
    ensures |argv| != 2 && |argv| != 3 ==> r == Defaults
    // Special characters are switched off only by an explicit, valid "0".
    ensures !r.special <==> |argv| == 3 && parseInt(argv[1]).Some? && argv[2] == "0"
  {
    if |argv| == 2 && parseInt(argv[1]).Some? then
      Settings(parseInt(argv[1]).value, Defaults.special)
    else if |argv| == 3 && parseInt(argv[1]).Some? && IsBooleanArg(argv[2]) then
      Settings(parseInt(argv[1]).value, ParseBoolean(argv[2]).value)
    else
      Defaults
  }

  /**
   A length that differs from the default came from a parsed first argument;
   the script passes it to the generator unchecked, so a length above the
   alphabet's size reaches a loop that cannot finish.
   */
  lemma ChangedLengthWasParsed(argv: seq<string>, parseInt: string -> Option<int>)
    ensures var r := SelectSettings(argv, parseInt);
      r.length != Defaults.length ==> (|argv| == 2 || |argv| == 3) && parseInt(argv[1]) == Some(r.length)
  {
  }
}
