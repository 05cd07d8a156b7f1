/** The commands of locky.commands, as the values Parser.parse builds. Each
    keeps the argument string it was given; Execute runs them. */
module Commands {

  datatype Command =
    | ListCommand
    | TodoCommand(description: string)
    | DeadlineCommand(args: string)
    | EventCommand(args: string)
    | MarkCommand(indexArg: string)
    | UnmarkCommand(indexArg: string)
    | DeleteCommand(indexArg: string)
    | FindCommand(keyword: string)
}
