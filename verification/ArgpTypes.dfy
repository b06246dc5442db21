/** The descriptions that argp works from: options, argps and the callbacks behind them. */
module ArgpTypes {
  import opened Options

  /** struct argp_option. hasArg says whether the arg field is non-null. */
  datatype Opt = Opt(name: Option<string>, key: int, hasArg: bool, argOptional: bool, alias: bool, doc: bool)

  /** struct argp, as far as parsing and the usage message use it. Null options and an absent parser
      function are visible to the code; a null children list behaves like an empty one. */
  datatype Argp = Argp(options: Option<seq<Opt>>, hasParser: bool, argsDoc: Option<string>, children: seq<Argp>)

  /** Return values of callbacks: 0, ARGP_ERR_UNKNOWN, or any other error number. */
  datatype Err = Ok | BadKey | Other(code: int)

  /** The key a callback is called with. */
  datatype Key =
    | OptKey(k: int) | ArgKey | ArgsKey
    | InitKey | NoArgsKey | EndKey | SuccessKey | ErrorKey | FiniKey

  /** One call of the parser function of a group, with the value of state.next it finds. */
  datatype Call = Call(group: nat, key: Key, arg: Option<string>, next: int)

  /** What a callback does: its return value, whether and where it moves state.next, and whether it
      rewrites the argument vector. */
  datatype Reply = Reply(err: Err, next: Option<int>, argv: Option<seq<string>>)
}
