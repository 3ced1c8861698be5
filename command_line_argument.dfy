/**
 * The record built for each token of a command line
 * (CommandLineParser/CommandLineArgument.cs).
 */
module ArgumentRecords {
  import opened Wrappers

  /**
   * IsFlag: the token was introduced by '-' or '/'.
   * Argument: the token text, without the flag prefix, the quotes or the ':' suffix.
   * ExtendedArgument: the text after a ':' that followed the token, None when there was none.
   * The C# properties have public setters; the model treats a record as a value.
   */
  datatype CommandLineArgument = CommandLineArgument(
    IsFlag: bool,
    Argument: string,
    ExtendedArgument: Option<string>)
}
