/** The values the analysis passes between its stages (main.go:17-20 and the parser boundary). */
module Types {

  /**
   * What the Go parser yields for one `.go` file when asked for its imports only:
   * the quoted import literals in declaration order, or a syntax error for that file.
   */
  datatype ParseOutcome = Parsed(imports: seq<string>) | Unparsable(path: string)

  /** The errors the core can return. */
  datatype Error =
    | ParseError(file: string)   // a source file whose import header does not parse
    | InvalidGoMod               // go.mod contents without any newline

  /** One gRPC edge: code of service `from` imports the generated interface of `to`. */
  datatype Dependency = Dependency(from: string, to: string)
}
